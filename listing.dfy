/**
 * The query behind `ArticleRepository.findAll`: keep the rows whose author
 * contains the requested text, order them by `createdAt`, and cut out one
 * page of five, together with the paging figures returned beside it.
 */
module Listing {
  import opened Wrappers
  import opened Entities

  const ArticlesPerPage: nat := 5

  /** The `skip` of a page: pages are numbered from 1. */
  function Skip(page: int): int
  {
    (page - 1) * ArticlesPerPage
  }

  /** `Math.ceil(total / articlesPerPage)`: the fewest pages that hold `total` rows. */
  function TotalPages(total: nat): (n: nat)
    ensures ArticlesPerPage * n >= total
    ensures n > 0 ==> ArticlesPerPage * (n - 1) < total
  {
    (total + ArticlesPerPage - 1) / ArticlesPerPage
  }

  /** `needle` occurs in `hay` starting at position `i`. */
  predicate OccursAt(needle: string, hay: string, i: int)
  {
    0 <= i && i + |needle| <= |hay| && hay[i..i + |needle|] == needle
  }

  /** `hay LIKE '%needle%'`, read as a literal substring test. */
  predicate IsSubstring(needle: string, hay: string)
  {
    exists i | 0 <= i <= |hay| - |needle| :: OccursAt(needle, hay, i)
  }

  /** The author filter; an absent or empty `author` is falsy and adds no condition. */
  predicate Matches(a: Article, author: Option<string>)
  {
    author.None? || author.value == "" || IsSubstring(author.value, a.author)
  }

  /** `'%' + needle + '%'` accepts every author that contains `needle`. */
  lemma AuthorFilterAcceptsInfix(a: Article, pre: string, needle: string, post: string)
    requires a.author == pre + needle + post
    ensures Matches(a, Some(needle))
  {
    assert a.author[|pre|..|pre| + |needle|] == needle;
    assert OccursAt(needle, a.author, |pre|);
  }

  /** A non-empty `needle` longer than the author's name never matches it. */
  lemma AuthorFilterRejectsLonger(a: Article, needle: string)
    requires |needle| > |a.author|
    ensures !Matches(a, Some(needle))
  {
  }

  /** No two entries of `s` carry the same id. */
  predicate NoDupIds(s: seq<Article>)
  {
    forall i, j :: 0 <= i < |s| && 0 <= j < |s| && s[i].id == s[j].id ==> i == j
  }

  /** Every row is stored under its own id. */
  predicate KeyedById(m: map<int, Article>)
  {
    forall k :: k in m ==> m[k].id == k
  }

  lemma NoDupIdsCons(x: Article, t: seq<Article>)
    requires NoDupIds(t)
    requires forall a :: a in t ==> a.id != x.id
    ensures NoDupIds([x] + t)
  {
    var s := [x] + t;
    forall k | 0 < k < |s|
      ensures s[k] == t[k - 1] && s[k].id != x.id
    {
      assert t[k - 1] in t;
    }
  }

  lemma NoDupIdsTail(s: seq<Article>)
    requires s != [] && NoDupIds(s)
    ensures NoDupIds(s[1..])
    ensures forall a :: a in s[1..] ==> a.id != s[0].id
  {
    forall a | a in s[1..] ensures a.id != s[0].id {
      var i :| 0 <= i < |s[1..]| && s[1..][i] == a;
      assert s[i + 1] == a;
    }
    forall i, j | 0 <= i < |s[1..]| && 0 <= j < |s[1..]| && s[1..][i].id == s[1..][j].id
      ensures i == j
    {
      assert s[i + 1] == s[1..][i] && s[j + 1] == s[1..][j];
    }
  }

  /** The smallest key of a non-empty key set. */
  function MinKey(ks: set<int>): (k: int)
    requires ks != {}
    ensures k in ks && forall j :: j in ks ==> k <= j
  {
    MinKeyExists(ks);
    var k :| k in ks && forall j :: j in ks ==> k <= j; k
  }

  lemma {:induction false} MinKeyExists(ks: set<int>)
    requires ks != {}
    ensures exists k :: k in ks && forall j :: j in ks ==> k <= j
    decreases ks
  {
    assert exists x :: x in ks by {
      if forall x :: x !in ks { assert false; }
    }
    var x :| x in ks;
    if ks != {x} {
      MinKeyExists(ks - {x});
      var y :| y in ks - {x} && forall j :: j in ks - {x} ==> y <= j;
      var least := if x <= y then x else y;
      forall j | j in ks ensures least <= j {
        if j != x { assert j in ks - {x}; }
      }
    } else {
      assert forall j :: j in ks ==> x <= j;
    }
  }

  /** The table's rows in ascending id order: the order in which the query meets them. */
  function Rows(m: map<int, Article>): (r: seq<Article>)
    ensures forall a :: a in r <==> a in m.Values
    ensures |r| == |m|
    decreases m.Keys
  {
    if m.Keys == {} then []
    else
      var k := MinKey(m.Keys);
      var rest := Rows(m - {k});
      assert (m - {k}).Keys == m.Keys - {k};
      assert |m| == |m.Keys| && |m - {k}| == |(m - {k}).Keys|;
      assert forall a :: a in m.Values <==> a == m[k] || a in (m - {k}).Values by {
        forall a | a in m.Values ensures a == m[k] || a in (m - {k}).Values {
          var k' :| k' in m && m[k'] == a;
          if k' != k { assert (m - {k})[k'] == a; }
        }
      }
      [m[k]] + rest
  }

  /** A table keyed by id lists each id once. */
  lemma {:induction false} RowsNoDup(m: map<int, Article>)
    requires KeyedById(m)
    ensures NoDupIds(Rows(m))
    decreases m.Keys
  {
    if m.Keys != {} {
      var k := MinKey(m.Keys);
      var rest := Rows(m - {k});
      RowsNoDup(m - {k});
      forall a | a in rest ensures a.id != k {
        var k' :| k' in m - {k} && (m - {k})[k'] == a;
      }
      NoDupIdsCons(m[k], rest);
    }
  }

  /** In a table keyed by id, every listed row is the table's row for its own id. */
  lemma {:induction false} RowsOfKeyedTable(m: map<int, Article>)
    requires KeyedById(m)
    ensures forall a :: a in Rows(m) ==> a.id in m && m[a.id] == a
    decreases m.Keys
  {
    if m.Keys != {} {
      var k := MinKey(m.Keys);
      RowsOfKeyedTable(m - {k});
      assert Rows(m) == [m[k]] + Rows(m - {k});
    }
  }

  /** The rows of `s` that pass the author filter, in their original order. */
  function Filter(s: seq<Article>, author: Option<string>): (r: seq<Article>)
    ensures |r| <= |s|
    ensures forall a :: a in r <==> a in s && Matches(a, author)
    ensures forall a :: multiset(r)[a] == if Matches(a, author) then multiset(s)[a] else 0
  {
    if s == [] then []
    else
      var rest := Filter(s[1..], author);
      assert s == [s[0]] + s[1..];
      assert forall a :: a in s <==> a == s[0] || a in s[1..];
      if Matches(s[0], author) then [s[0]] + rest else rest
  }

  lemma {:induction false} FilterNoDup(s: seq<Article>, author: Option<string>)
    requires NoDupIds(s)
    ensures NoDupIds(Filter(s, author))
  {
    if s != [] {
      NoDupIdsTail(s);
      FilterNoDup(s[1..], author);
      if Matches(s[0], author) {
        NoDupIdsCons(s[0], Filter(s[1..], author));
      }
    }
  }

  /** `a` may come before `b` in a listing ordered by `createdAt` in direction `order`. */
  predicate InOrder(a: Article, b: Article, order: Order)
  {
    if order == Asc then a.createdAt <= b.createdAt else a.createdAt >= b.createdAt
  }

  predicate Sorted(s: seq<Article>, order: Order)
  {
    forall i, j :: 0 <= i < j < |s| ==> InOrder(s[i], s[j], order)
  }

  /** Prefixing `y` to an ordered list keeps it ordered when `y` may precede every entry. */
  lemma SortedCons(y: Article, t: seq<Article>, order: Order)
    requires Sorted(t, order) && forall a :: a in t ==> InOrder(y, a, order)
    ensures Sorted([y] + t, order)
  {
    var r := [y] + t;
    forall i, j | 0 <= i < j < |r| ensures InOrder(r[i], r[j], order) {
      assert r[j] == t[j - 1] && r[j] in t;
      if i > 0 { assert r[i] == t[i - 1]; }
    }
  }

  /** Places `x` before the first entry it may precede. */
  function Insert(x: Article, s: seq<Article>, order: Order): (r: seq<Article>)
    requires Sorted(s, order)
    ensures Sorted(r, order)
    ensures multiset(r) == multiset(s) + multiset{x}
    ensures forall a :: a in r <==> a == x || a in s
  {
    if s == [] || InOrder(x, s[0], order) then
      assert forall a :: a in s ==> InOrder(x, a, order);
      SortedCons(x, s, order);
      [x] + s
    else
      assert s == [s[0]] + s[1..];
      var rest := Insert(x, s[1..], order);
      assert forall a :: a in rest ==> InOrder(s[0], a, order);
      SortedCons(s[0], rest, order);
      [s[0]] + rest
  }

  lemma {:induction false} InsertNoDup(x: Article, s: seq<Article>, order: Order)
    requires Sorted(s, order) && NoDupIds(s)
    requires forall a :: a in s ==> a.id != x.id
    ensures NoDupIds(Insert(x, s, order))
  {
    if s == [] || InOrder(x, s[0], order) {
      NoDupIdsCons(x, s);
    } else {
      NoDupIdsTail(s);
      InsertNoDup(x, s[1..], order);
      NoDupIdsCons(s[0], Insert(x, s[1..], order));
    }
  }

  /** `ORDER BY createdAt`: a stable insertion sort, so rows with equal timestamps keep their order. */
  function Sort(s: seq<Article>, order: Order): (r: seq<Article>)
    ensures Sorted(r, order)
    ensures multiset(r) == multiset(s)
    ensures |r| == |s|
    ensures forall a :: a in r <==> a in s
  {
    if s == [] then []
    else
      assert s == [s[0]] + s[1..];
      Insert(s[0], Sort(s[1..], order), order)
  }

  lemma {:induction false} SortNoDup(s: seq<Article>, order: Order)
    requires NoDupIds(s)
    ensures NoDupIds(Sort(s, order))
  {
    if s != [] {
      NoDupIdsTail(s);
      SortNoDup(s[1..], order);
      InsertNoDup(s[0], Sort(s[1..], order), order);
    }
  }

  /** `skip(Skip(page)).take(ArticlesPerPage)` on the ordered rows. */
  function PageOf(s: seq<Article>, page: int): (r: seq<Article>)
    requires page >= 1
    ensures |r| <= ArticlesPerPage
    ensures |r| == if Skip(page) >= |s| then 0
                   else if |s| - Skip(page) < ArticlesPerPage then |s| - Skip(page)
                   else ArticlesPerPage
    ensures forall k :: 0 <= k < |r| ==> r[k] == s[Skip(page) + k]
  {
    var lo := Skip(page);
    if lo >= |s| then []
    else if |s| - lo < ArticlesPerPage then s[lo..]
    else s[lo..lo + ArticlesPerPage]
  }

  lemma PageOfKeeps(s: seq<Article>, page: int, order: Order)
    requires page >= 1
    ensures Sorted(s, order) ==> Sorted(PageOf(s, page), order)
    ensures forall a :: a in PageOf(s, page) ==> a in s
    ensures NoDupIds(s) ==> NoDupIds(PageOf(s, page))
  {
    var r := PageOf(s, page);
    var lo := Skip(page);
    forall a | a in r ensures a in s {
      var k :| 0 <= k < |r| && r[k] == a;
      assert s[lo + k] == a;
    }
    if Sorted(s, order) {
      forall i, j | 0 <= i < j < |r| ensures InOrder(r[i], r[j], order) {
        assert r[i] == s[lo + i] && r[j] == s[lo + j];
      }
    }
    if NoDupIds(s) {
      forall i, j | 0 <= i < |r| && 0 <= j < |r| && r[i].id == r[j].id ensures i == j {
        assert r[i] == s[lo + i] && r[j] == s[lo + j];
      }
    }
  }

  /** Entry `k` of the ordered rows is entry `k % 5` of page `k / 5 + 1`, and that page exists. */
  lemma {:induction false} PageCovers(s: seq<Article>, k: nat)
    requires k < |s|
    ensures 1 <= k / ArticlesPerPage + 1 <= TotalPages(|s|)
    ensures var p := PageOf(s, k / ArticlesPerPage + 1);
            k % ArticlesPerPage < |p| && p[k % ArticlesPerPage] == s[k]
  {
    var page := k / ArticlesPerPage + 1;
    assert Skip(page) + k % ArticlesPerPage == k;
    assert ArticlesPerPage * (page - 1) <= k < |s| <= ArticlesPerPage * TotalPages(|s|);
  }

  /** A page has entries exactly when its number lies between 1 and `TotalPages`. */
  lemma PageNonEmptyIff(s: seq<Article>, page: int)
    requires page >= 1
    ensures |PageOf(s, page)| > 0 <==> page <= TotalPages(|s|)
  {
    var n := TotalPages(|s|);
    if page <= n {
      assert Skip(page) <= ArticlesPerPage * (n - 1) < |s|;
    }
  }

  /** Pages are disjoint: on duplicate-free rows, no row is listed on two different pages. */
  lemma PagesDisjoint(s: seq<Article>, p: int, q: int)
    requires 1 <= p && 1 <= q && p != q && NoDupIds(s)
    ensures forall a :: a in PageOf(s, p) ==> a !in PageOf(s, q)
  {
    var P, Q := PageOf(s, p), PageOf(s, q);
    forall i, j | 0 <= i < |P| && 0 <= j < |Q|
      ensures P[i] != Q[j]
    {
      assert Skip(p) + i != Skip(q) + j;
      assert P[i] == s[Skip(p) + i] && Q[j] == s[Skip(q) + j];
    }
  }

  /** What `findAll` returns beside the page itself. */
  datatype ArticleList = ArticleList(data: seq<Article>, total: nat, articlesPerPage: nat, currentPage: int, totalPages: nat)

  /** The rows the author filter keeps, in id order. */
  function Matching(m: map<int, Article>, author: Option<string>): (r: seq<Article>)
    ensures |r| <= |m|
    ensures forall a :: a in r <==> a in m.Values && Matches(a, author)
    ensures KeyedById(m) ==> NoDupIds(r)
  {
    assert KeyedById(m) ==> NoDupIds(Filter(Rows(m), author)) by {
      if KeyedById(m) {
        RowsNoDup(m);
        FilterNoDup(Rows(m), author);
      }
    }
    Filter(Rows(m), author)
  }

  /**
   * The whole of `ArticleRepository.findAll` over the table `m`. `fault` stands
   * for the database raising while the query runs; a page below 1 gives a
   * negative OFFSET, which PostgreSQL rejects. Both are caught and rethrown as
   * "Error fetching articles".
   */
  function Query(m: map<int, Article>, author: Option<string>, page: int, order: Order, fault: bool): (r: Result<ArticleList>)
    ensures r.Err? <==> fault || page < 1
    ensures r.Err? ==> r.failure == FetchError
    ensures r.Ok? ==> r.value.articlesPerPage == ArticlesPerPage && r.value.currentPage == page
    ensures r.Ok? ==> r.value.total == |Matching(m, author)| && r.value.totalPages == TotalPages(r.value.total)
    ensures r.Ok? ==> |r.value.data| <= ArticlesPerPage && Sorted(r.value.data, order)
    ensures r.Ok? ==> |r.value.data| == if Skip(page) >= r.value.total then 0
                                        else if r.value.total - Skip(page) < ArticlesPerPage then r.value.total - Skip(page)
                                        else ArticlesPerPage
    ensures r.Ok? ==> forall k :: 0 <= k < |r.value.data| ==>
                        Skip(page) + k < |Matching(m, author)| &&
                        r.value.data[k] == Sort(Matching(m, author), order)[Skip(page) + k]
    ensures r.Ok? ==> forall a :: a in r.value.data ==> a in m.Values && Matches(a, author)
    ensures r.Ok? && KeyedById(m) ==> NoDupIds(r.value.data) && NoDupIds(Matching(m, author))
    ensures r.Ok? && KeyedById(m) ==> forall a :: a in r.value.data ==> a.id in m && m[a.id] == a
  {
    if fault || page < 1 then Err(FetchError)
    else
      var matching := Matching(m, author);
      QueryPage(m, author, page, order);
      Ok(ArticleList(PageOf(Sort(matching, order), page), |matching|, ArticlesPerPage, page, TotalPages(|matching|)))
  }

  /** What `Query` promises of its `data`: a page of the ordered matches, and rows of the table. */
  lemma QueryPage(m: map<int, Article>, author: Option<string>, page: int, order: Order)
    requires page >= 1
    ensures Sorted(PageOf(Sort(Matching(m, author), order), page), order)
    ensures forall a :: a in PageOf(Sort(Matching(m, author), order), page) ==> a in m.Values && Matches(a, author)
    ensures KeyedById(m) ==> NoDupIds(PageOf(Sort(Matching(m, author), order), page))
    ensures KeyedById(m) ==> forall a :: a in PageOf(Sort(Matching(m, author), order), page) ==> a.id in m && m[a.id] == a
  {
    var matching := Matching(m, author);
    var ordered := Sort(matching, order);
    PageOfKeeps(ordered, page, order);
    if KeyedById(m) {
      RowsOfKeyedTable(m);
      RowsNoDup(m);
      FilterNoDup(Rows(m), author);
      SortNoDup(matching, order);
    }
  }

  /** Paging loses nothing: every row the filter keeps is listed on some page between 1 and `totalPages`. */
  lemma {:induction false} QueryCoversMatching(m: map<int, Article>, author: Option<string>, order: Order, a: Article)
    requires a in m.Values && Matches(a, author)
    ensures exists page :: 1 <= page <= TotalPages(|Matching(m, author)|)
                        && a in Query(m, author, page, order, false).value.data
  {
    var matching := Matching(m, author);
    var page := SortedPageOf(matching, order, a);
    assert Query(m, author, page, order, false).value.data == PageOf(Sort(matching, order), page);
  }

  /** A page, between 1 and `TotalPages`, of the ordered rows that lists `a`. */
  lemma {:induction false} SortedPageOf(s: seq<Article>, order: Order, a: Article) returns (page: int)
    requires a in s
    ensures 1 <= page <= TotalPages(|s|) && a in PageOf(Sort(s, order), page)
  {
    var ordered := Sort(s, order);
    var k :| 0 <= k < |ordered| && ordered[k] == a;
    PageCovers(ordered, k);
    page := k / ArticlesPerPage + 1;
  }
}
