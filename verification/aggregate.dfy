/**
 The aggregate page (work 0), `displayAllWorkPosts`: the posts of works 1, 2
 and 3 are collected in that order, each tagged with the work it came from,
 sorted from oldest to newest by a stable sort on the posting time, and every
 text is shown escaped.

 The posting time is stored as a locale string and parsed back by `Date`;
 here it is the integer `date` of a post, the key the comparator subtracts.
 */
module Aggregate {
  import opened Entities
  import opened PostStore

  /** A collected post and the work it was read from. */
  datatype Entry = Entry(post: Post, origin: int)

  /** What the page builds for one entry: the escaped text (before `nl2br`
      is applied to it in the template), the work it links to and the id its
      delete button passes. */
  datatype Shown = Shown(html: string, origin: int, id: string)

  function Key(e: Entry): int
  {
    e.post.date
  }

  /** The posts of one work, each tagged with that work. */
  function Tag(posts: seq<Post>, origin: int): (r: seq<Entry>)
    ensures |r| == |posts|
    ensures forall i | 0 <= i < |r| :: r[i] == Entry(posts[i], origin)
  {
    if |posts| == 0 then []
    else
      [Entry(posts[0], origin)] + Tag(posts[1..], origin)
  }

  /** The collection loop: works 1, 2, 3 in turn, each in stored order. */
  function Collect(store: Store): (r: seq<Entry>)
    ensures |r| == |Load(store, 1)| + |Load(store, 2)| + |Load(store, 3)|
    ensures forall i | 0 <= i < |Load(store, 1)| :: r[i] == Entry(Load(store, 1)[i], 1)
    ensures forall i | |Load(store, 1)| <= i < |Load(store, 1)| + |Load(store, 2)| ::
      r[i] == Entry(Load(store, 2)[i - |Load(store, 1)|], 2)
    ensures forall i | |Load(store, 1)| + |Load(store, 2)| <= i < |r| ::
      r[i] == Entry(Load(store, 3)[i - |Load(store, 1)| - |Load(store, 2)|], 3)
  {
    Gather(Load(store, 1), Load(store, 2), Load(store, 3))
  }

  /** The loop body over the three lists already read: each post tagged with
      its work, the works one after the other. */
  function Gather(p1: seq<Post>, p2: seq<Post>, p3: seq<Post>): (r: seq<Entry>)
    ensures |r| == |p1| + |p2| + |p3|
    ensures forall i | 0 <= i < |p1| :: r[i] == Entry(p1[i], 1)
    ensures forall i | |p1| <= i < |p1| + |p2| :: r[i] == Entry(p2[i - |p1|], 2)
    ensures forall i | |p1| + |p2| <= i < |r| :: r[i] == Entry(p3[i - |p1| - |p2|], 3)
  {
    var a, b, c := Tag(p1, 1), Tag(p2, 2), Tag(p3, 3);
    ThreeParts(a, b, c);
    a + b + c
  }

  /** Where the parts of a three-way concatenation sit. */
  lemma ThreeParts<T>(a: seq<T>, b: seq<T>, c: seq<T>)
    ensures forall i | 0 <= i < |a| :: (a + b + c)[i] == a[i]
    ensures forall i | |a| <= i < |a| + |b| :: (a + b + c)[i] == b[i - |a|]
    ensures forall i | |a| + |b| <= i < |a| + |b| + |c| :: (a + b + c)[i] == c[i - |a| - |b|]
  {
  }

  /** An entry is collected exactly when it is a stored post of work 1, 2
      or 3 tagged with that work. */
  lemma CollectMember(store: Store, e: Entry)
    ensures e in Collect(store) <==> 1 <= e.origin <= 3 && e.post in Load(store, e.origin)
  {
    if e in Collect(store) {
      CollectedIsStored(store, e);
    }
    if 1 <= e.origin <= 3 && e.post in Load(store, e.origin) {
      StoredIsCollected(store, e);
    }
  }

  lemma CollectedIsStored(store: Store, e: Entry)
    requires e in Collect(store)
    ensures 1 <= e.origin <= 3 && e.post in Load(store, e.origin)
  {
    var p1, p2, p3 := Load(store, 1), Load(store, 2), Load(store, 3);
    var r := Collect(store);
    var i :| 0 <= i < |r| && r[i] == e;
    if i < |p1| {
      assert e == Entry(p1[i], 1);
    } else if i < |p1| + |p2| {
      assert e == Entry(p2[i - |p1|], 2);
    } else {
      assert e == Entry(p3[i - |p1| - |p2|], 3);
    }
  }

  lemma StoredIsCollected(store: Store, e: Entry)
    requires 1 <= e.origin <= 3 && e.post in Load(store, e.origin)
    ensures e in Collect(store)
  {
    var p1, p2, p3 := Load(store, 1), Load(store, 2), Load(store, 3);
    var r := Collect(store);
    if e.origin == 1 {
      FoundInRun(r, 0, p1, 1, e.post);
    } else if e.origin == 2 {
      FoundInRun(r, |p1|, p2, 2, e.post);
    } else {
      FoundInRun(r, |p1| + |p2|, p3, 3, e.post);
    }
  }

  /** A post of a list laid out from position `lo` on is found there, tagged. */
  lemma FoundInRun(r: seq<Entry>, lo: nat, posts: seq<Post>, origin: int, p: Post)
    requires lo + |posts| <= |r|
    requires forall i | lo <= i < lo + |posts| :: r[i] == Entry(posts[i - lo], origin)
    requires p in posts
    ensures Entry(p, origin) in r
  {
    var j :| 0 <= j < |posts| && posts[j] == p;
    assert r[lo + j] == Entry(posts[lo + j - lo], origin);
  }

  /** Every collected entry comes from work 1, 2 or 3. */
  lemma CollectOrigins(store: Store)
    ensures forall i | 0 <= i < |Collect(store)| :: 1 <= Collect(store)[i].origin <= 3
  {
    var p1, p2, p3 := Load(store, 1), Load(store, 2), Load(store, 3);
    var r := Collect(store);
    forall i | 0 <= i < |r|
      ensures 1 <= r[i].origin <= 3
    {
      if i < |p1| {
        assert r[i] == Entry(p1[i], 1);
      } else if i < |p1| + |p2| {
        assert r[i] == Entry(p2[i - |p1|], 2);
      } else {
        assert r[i] == Entry(p3[i - |p1| - |p2|], 3);
      }
    }
  }

  /** Oldest first. */
  predicate Sorted(s: seq<Entry>)
  {
    forall i, j | 0 <= i <= j < |s| :: Key(s[i]) <= Key(s[j])
  }

  /** The entries of `s` with posting time `k`, in their order in `s`. */
  function WithKey(s: seq<Entry>, k: int): (r: seq<Entry>)
    ensures |r| <= |s|
  {
    if |s| == 0 then []
    else (if Key(s[0]) == k then [s[0]] else []) + WithKey(s[1..], k)
  }

  /** The selection holds entries of `s` with time `k` only. */
  lemma {:induction false} WithKeyMembers(s: seq<Entry>, k: int)
    ensures forall e | e in WithKey(s, k) :: e in s && Key(e) == k
    decreases |s|
  {
    if |s| > 0 {
      WithKeyMembers(s[1..], k);
    }
  }

  lemma WithKeyCons(x: Entry, s: seq<Entry>, k: int)
    ensures WithKey([x] + s, k) == (if Key(x) == k then [x] else []) + WithKey(s, k)
  {
    assert ([x] + s)[1..] == s;
  }

  /** A stable sort keeps, for every posting time, the entries with that time
      in their original order; and it loses or adds nothing. */
  ghost predicate StableArrangement(r: seq<Entry>, s: seq<Entry>)
  {
    forall k :: WithKey(r, k) == WithKey(s, k)
  }

  /** One insertion step: `e` goes before the first entry that is not older,
      so it stays ahead of the entries with its own time that followed it. */
  function Insert(e: Entry, s: seq<Entry>): (r: seq<Entry>)
    ensures |r| == |s| + 1
    ensures multiset(r) == multiset(s) + multiset{e}
  {
    if |s| == 0 || Key(e) <= Key(s[0]) then [e] + s
    else
      assert s == [s[0]] + s[1..];
      [s[0]] + Insert(e, s[1..])
  }

  /** Inserting into a sorted sequence keeps it sorted. */
  lemma {:induction false} InsertSorted(e: Entry, s: seq<Entry>)
    requires Sorted(s)
    ensures Sorted(Insert(e, s))
    decreases |s|
  {
    if |s| > 0 && Key(e) > Key(s[0]) {
      InsertSorted(e, s[1..]);
      InsertAbove(e, s);
      SortedCons(s[0], Insert(e, s[1..]));
    }
  }

  /** What is inserted behind the head of a sorted sequence is not older than it. */
  lemma InsertAbove(e: Entry, s: seq<Entry>)
    requires Sorted(s) && |s| > 0 && Key(e) > Key(s[0])
    ensures forall x | x in Insert(e, s[1..]) :: Key(s[0]) <= Key(x)
  {
    var rest := Insert(e, s[1..]);
    forall x | x in rest
      ensures Key(s[0]) <= Key(x)
    {
      assert x in multiset(s[1..]) + multiset{e};
      if x != e {
        assert x in s[1..];
      }
    }
  }

  lemma SortedCons(x: Entry, rest: seq<Entry>)
    requires Sorted(rest)
    requires forall y | y in rest :: Key(x) <= Key(y)
    ensures Sorted([x] + rest)
  {
    var r := [x] + rest;
    forall i, j | 0 <= i <= j < |r|
      ensures Key(r[i]) <= Key(r[j])
    {
      if 0 < i {
        assert r[i] == rest[i - 1] && r[j] == rest[j - 1];
      } else if 0 < j {
        assert r[j] in rest;
      }
    }
  }

  /** Two selections of which at most one is non-empty commute. */
  lemma SwapDisjoint(x: seq<Entry>, y: seq<Entry>, w: seq<Entry>)
    requires x == [] || y == []
    ensures x + (y + w) == y + (x + w)
  {
    if x == [] {
      assert x + (y + w) == y + w;
      assert x + w == w;
    } else {
      assert y + (x + w) == x + w;
      assert y + w == w;
    }
  }

  /** Insertion is stable: per posting time, `e` is placed first. */
  lemma {:induction false} InsertStable(e: Entry, s: seq<Entry>, k: int)
    ensures WithKey(Insert(e, s), k) == WithKey([e] + s, k)
    decreases |s|
  {
    if |s| > 0 && Key(e) > Key(s[0]) {
      var x, tail := s[0], s[1..];
      var rest := Insert(e, tail);
      assert Insert(e, s) == [x] + rest;
      assert s == [x] + tail;
      InsertStable(e, tail, k);
      var hx := if Key(x) == k then [x] else [];
      var he := if Key(e) == k then [e] else [];
      WithKeyCons(x, rest, k);
      WithKeyCons(e, tail, k);
      WithKeyCons(x, tail, k);
      WithKeyCons(e, s, k);
      assert WithKey(Insert(e, s), k) == hx + (he + WithKey(tail, k));
      assert WithKey([e] + s, k) == he + (hx + WithKey(tail, k));
      SwapDisjoint(hx, he, WithKey(tail, k));
    }
  }

  /** `allPosts.sort` with a comparator on the posting time; the sort is stable. */
  function SortByDate(s: seq<Entry>): (r: seq<Entry>)
    ensures |r| == |s|
    ensures Sorted(r)
    ensures multiset(r) == multiset(s)
    ensures StableArrangement(r, s)
  {
    if |s| == 0 then []
    else
      var rest := SortByDate(s[1..]);
      assert s == [s[0]] + s[1..];
      InsertSorted(s[0], rest);
      forall k
        ensures WithKey(Insert(s[0], rest), k) == WithKey(s, k)
      {
        InsertStable(s[0], rest, k);
        WithKeyCons(s[0], rest, k);
        WithKeyCons(s[0], s[1..], k);
      }
      Insert(s[0], rest)
  }

  /** The first entry of a non-empty sequence is the first of its own time. */
  lemma WithKeyHead(s: seq<Entry>)
    requires |s| > 0
    ensures WithKey(s, Key(s[0])) == [s[0]] + WithKey(s[1..], Key(s[0]))
    ensures forall k | k != Key(s[0]) :: WithKey(s, k) == WithKey(s[1..], k)
  {
  }

  /** Two arrangements with the same entries per time are both empty or both not. */
  lemma NonEmptyByKeys(a: seq<Entry>, b: seq<Entry>)
    requires StableArrangement(a, b)
    ensures |a| > 0 <==> |b| > 0
  {
    if |a| > 0 {
      WithKeyHead(a);
      assert |WithKey(b, Key(a[0]))| > 0;
    }
    if |b| > 0 {
      WithKeyHead(b);
      assert |WithKey(a, Key(b[0]))| > 0;
    }
  }

  lemma SortedHeadMin(s: seq<Entry>)
    requires Sorted(s) && |s| > 0
    ensures forall e | e in s :: Key(s[0]) <= Key(e)
  {
    forall e | e in s
      ensures Key(s[0]) <= Key(e)
    {
      var i :| 0 <= i < |s| && s[i] == e;
    }
  }

  /** Sorted arrangements with the same entries per time begin alike. */
  lemma SameHead(a: seq<Entry>, b: seq<Entry>)
    requires Sorted(a) && Sorted(b) && StableArrangement(a, b)
    requires |a| > 0 && |b| > 0
    ensures a[0] == b[0]
  {
    var ka, kb := Key(a[0]), Key(b[0]);
    WithKeyHead(a);
    WithKeyHead(b);
    assert WithKey(b, ka) == WithKey(a, ka);
    assert WithKey(a, kb) == WithKey(b, kb);
    WithKeyMembers(b, ka);
    WithKeyMembers(a, kb);
    SortedHeadMin(a);
    SortedHeadMin(b);
    assert WithKey(b, ka)[0] in WithKey(b, ka);
    assert WithKey(a, kb)[0] in WithKey(a, kb);
    assert ka == kb;
    assert WithKey(a, ka)[0] == a[0];
    assert WithKey(b, kb)[0] == b[0];
  }

  /** Removing the common first entry keeps the arrangements related. */
  lemma TailsArranged(a: seq<Entry>, b: seq<Entry>)
    requires StableArrangement(a, b)
    requires |a| > 0 && |b| > 0 && a[0] == b[0]
    ensures StableArrangement(a[1..], b[1..])
  {
    WithKeyHead(a);
    WithKeyHead(b);
    forall k
      ensures WithKey(a[1..], k) == WithKey(b[1..], k)
    {
      assert WithKey(a, k) == WithKey(b, k);
      if k == Key(a[0]) {
        assert WithKey(a[1..], k) == WithKey(a, k)[1..];
        assert WithKey(b[1..], k) == WithKey(b, k)[1..];
      }
    }
  }

  /** There is only one stable chronological arrangement: two sorted
      sequences that hold the same entries per posting time, in the same
      order, are equal. */
  lemma {:induction false} StableSortUnique(a: seq<Entry>, b: seq<Entry>)
    requires Sorted(a) && Sorted(b)
    requires StableArrangement(a, b)
    ensures a == b
    decreases |a|
  {
    NonEmptyByKeys(a, b);
    if |a| > 0 {
      SameHead(a, b);
      TailsArranged(a, b);
      StableSortUnique(a[1..], b[1..]);
      assert a == [a[0]] + a[1..];
      assert b == [b[0]] + b[1..];
    }
  }

  /** The sort is the stable sort: any sorted sequence that keeps the order of
      every posting time's entries is exactly its result. */
  lemma SortByDateIsStableSort(s: seq<Entry>, arranged: seq<Entry>)
    requires Sorted(arranged) && StableArrangement(arranged, s)
    ensures SortByDate(s) == arranged
  {
    StableSortUnique(SortByDate(s), arranged);
  }

  function Present(e: Entry): (r: Shown)
    ensures forall j | 0 <= j < |r.html| :: !Delimiter(r.html[j])
  {
    Shown(Escape(e.post.text), e.origin, e.post.id)
  }

  function PresentAll(s: seq<Entry>): (r: seq<Shown>)
    ensures |r| == |s|
    ensures forall i | 0 <= i < |s| :: r[i] == Present(s[i])
  {
    if |s| == 0 then [] else [Present(s[0])] + PresentAll(s[1..])
  }

  lemma CollectedOrigins(collected: seq<Entry>, s: seq<Entry>)
    requires forall i | 0 <= i < |collected| :: 1 <= collected[i].origin <= 3
    requires multiset(s) == multiset(collected)
    ensures forall i | 0 <= i < |s| :: 1 <= s[i].origin <= 3
  {
    forall i | 0 <= i < |s|
      ensures 1 <= s[i].origin <= 3
    {
      assert s[i] in multiset(collected);
      var j :| 0 <= j < |collected| && collected[j] == s[i];
    }
  }

  /** displayAllWorkPosts: every post of works 1 to 3, oldest first, escaped. */
  function DisplayAll(store: Store): (r: seq<Shown>)
    ensures |r| == |Load(store, 1)| + |Load(store, 2)| + |Load(store, 3)|
    ensures forall i | 0 <= i < |r| ::
      1 <= r[i].origin <= 3 && forall j | 0 <= j < |r[i].html| :: !Delimiter(r[i].html[j])
  {
    var sorted := SortByDate(Collect(store));
    CollectOrigins(store);
    CollectedOrigins(Collect(store), sorted);
    PresentAll(sorted)
  }

  /** Every entry on the page is a stored post of the work it links to, and
      its HTML decodes to exactly that post's text. */
  lemma DisplayAllShowsStoredPosts(store: Store, i: int)
    requires 0 <= i < |DisplayAll(store)|
    ensures var d := DisplayAll(store)[i];
      exists p :: p in Load(store, d.origin) && p.id == d.id && Unescape(d.html) == p.text
  {
    var sorted := SortByDate(Collect(store));
    var e := sorted[i];
    assert e in multiset(Collect(store));
    CollectMember(store, e);
    UnescapeEscape(e.post.text);
    assert e.post in Load(store, e.origin);
  }

  /** The page is the presentation of any chronological arrangement of the
      collected posts that keeps same-time posts in collection order. */
  lemma DisplayAllIsChronological(store: Store, arranged: seq<Entry>)
    requires Sorted(arranged) && StableArrangement(arranged, Collect(store))
    ensures DisplayAll(store) == PresentAll(arranged)
  {
    SortByDateIsStableSort(Collect(store), arranged);
  }

  /** Three posts, one per work, at times t1 < t3 < t2: the page lists works
      1, 3 and 2 in that order. */
  lemma InterleavedWorks(store: Store, p1: Post, p2: Post, p3: Post)
    requires Load(store, 1) == [p1] && Load(store, 2) == [p2] && Load(store, 3) == [p3]
    requires p1.date < p3.date < p2.date
    ensures var d := DisplayAll(store);
      |d| == 3 && d[0].origin == 1 && d[1].origin == 3 && d[2].origin == 2
  {
    var x, y, z := Entry(p1, 1), Entry(p2, 2), Entry(p3, 3);
    CollectSingletons(store, p1, p2, p3);
    forall k
      ensures WithKey([x, z, y], k) == WithKey([x, y, z], k)
    {
      SwapLastTwo(x, y, z, k);
    }
    DisplayAllIsChronological(store, [x, z, y]);
    var d := PresentAll([x, z, y]);
    assert d[0] == Present(x) && d[1] == Present(z) && d[2] == Present(y);
  }

  lemma CollectSingletons(store: Store, p1: Post, p2: Post, p3: Post)
    requires Load(store, 1) == [p1] && Load(store, 2) == [p2] && Load(store, 3) == [p3]
    ensures Collect(store) == [Entry(p1, 1), Entry(p2, 2), Entry(p3, 3)]
  {
    assert Tag([p1], 1) == [Entry(p1, 1)];
    assert Tag([p2], 2) == [Entry(p2, 2)];
    assert Tag([p3], 3) == [Entry(p3, 3)];
  }

  lemma SwapLastTwo(x: Entry, y: Entry, z: Entry, k: int)
    requires Key(y) != Key(z)
    ensures WithKey([x, z, y], k) == WithKey([x, y, z], k)
  {
    var hy := if Key(y) == k then [y] else [];
    var hz := if Key(z) == k then [z] else [];
    WithKeyCons(y, [], k);
    WithKeyCons(z, [], k);
    WithKeyCons(z, [y], k);
    WithKeyCons(y, [z], k);
    assert [x, z, y] == [x] + [z, y] && [z, y] == [z] + [y];
    assert [x, y, z] == [x] + [y, z] && [y, z] == [y] + [z];
    WithKeyCons(x, [z, y], k);
    WithKeyCons(x, [y, z], k);
    SwapDisjoint(hz, hy, []);
  }

  /** Three posts, one per work, at the same time: the stable sort keeps the
      collection order, so the page lists works 1, 2 and 3 in that order. */
  lemma SameTimeKeepsWorkOrder(store: Store, p1: Post, p2: Post, p3: Post)
    requires Load(store, 1) == [p1] && Load(store, 2) == [p2] && Load(store, 3) == [p3]
    requires p1.date == p2.date == p3.date
    ensures var d := DisplayAll(store);
      |d| == 3 && d[0].origin == 1 && d[1].origin == 2 && d[2].origin == 3
  {
    var arranged := [Entry(p1, 1), Entry(p2, 2), Entry(p3, 3)];
    CollectSingletons(store, p1, p2, p3);
    assert Sorted(arranged);
    DisplayAllIsChronological(store, arranged);
    var d := PresentAll(arranged);
    assert d[0] == Present(arranged[0]) && d[1] == Present(arranged[1]) && d[2] == Present(arranged[2]);
  }
}
