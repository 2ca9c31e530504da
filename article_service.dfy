/**
 * `ArticleService`: the article list snapshot kept under the single key
 * "articles" in front of the `article` table. Reads serve the snapshot when
 * it is there; writes patch or splice it, then go to the table.
 */
module ArticleSvc {
  import opened Wrappers
  import opened Entities
  import opened Listing
  import opened ArticleStore
  import opened Cache

  // ---------------------------------------------------------------------------
  // The snapshot and the in-memory edits made to it
  // ---------------------------------------------------------------------------

  /** `cachedArticles && cachedArticles !== '[]'`: only a stored non-empty array is a hit. */
  function Snapshot(v: Option<CacheVal>): (r: Option<seq<Article>>)
    ensures r.Some? <==> v.Some? && v.value.Articles? && v.value.items != []
    ensures r.Some? ==> r.value == v.value.items && r.value != []
  {
    if v.Some? && v.value.Articles? && v.value.items != [] then Some(v.value.items) else None
  }

  function SnapshotOf(cache: map<string, Entry>): Option<seq<Article>>
  {
    Snapshot(ValueAt(cache, ArticlesKey))
  }

  /** `findIndex(article => article.id === id)`: the first position holding `id`, or -1. */
  function IndexOf(s: seq<Article>, id: int): (i: int)
    ensures -1 <= i < |s|
    ensures i >= 0 ==> s[i].id == id && forall j :: 0 <= j < i ==> s[j].id != id
    ensures i == -1 ==> forall j :: 0 <= j < |s| ==> s[j].id != id
  {
    if s == [] then -1
    else if s[0].id == id then 0
    else
      var i := IndexOf(s[1..], id);
      if i == -1 then -1 else i + 1
  }

  /** The linear scan behind `find` and `findIndex`. */
  method FindIndex(s: seq<Article>, id: int) returns (i: int)
    ensures i == IndexOf(s, id)
  {
    i := 0;
    while i < |s|
      invariant 0 <= i <= |s|
      invariant forall j :: 0 <= j < i ==> s[j].id != id
    {
      if s[i].id == id {
        return;
      }
      i := i + 1;
    }
    i := -1;
  }

  /** `articles[i] = {...articles[i], title, content, author}`. */
  function PatchAt(s: seq<Article>, i: int, dto: ArticleDto): (t: seq<Article>)
    requires 0 <= i < |s|
    ensures |t| == |s|
    ensures t[i].id == s[i].id && t[i].createdAt == s[i].createdAt
    ensures t[i].title == dto.title && t[i].content == dto.content && t[i].author == dto.author
    ensures forall j :: 0 <= j < |s| && j != i ==> t[j] == s[j]
  {
    s[i := Patched(s[i], dto)]
  }

  /** `articles.splice(i, 1)`. */
  function RemoveAt(s: seq<Article>, i: int): (t: seq<Article>)
    requires 0 <= i < |s|
    ensures |t| == |s| - 1
    ensures forall j :: 0 <= j < i ==> t[j] == s[j]
    ensures forall j :: i <= j < |t| ==> t[j] == s[j + 1]
    ensures multiset(t) == multiset(s) - multiset{s[i]}
  {
    assert s == s[..i] + [s[i]] + s[i + 1..];
    s[..i] + s[i + 1..]
  }

  /** The cache half of `update`: patch the first entry for `id` and rewrite the snapshot, if there is one to patch. */
  function ReconcileUpdate(cache: map<string, Entry>, id: int, dto: ArticleDto): (c: map<string, Entry>)
    ensures forall k :: k != ArticlesKey ==> (k in c <==> k in cache) && (k in c ==> c[k] == cache[k])
    ensures SnapshotOf(cache).None? || IndexOf(SnapshotOf(cache).value, id) == -1 ==> c == cache
    ensures SnapshotOf(cache).Some? && IndexOf(SnapshotOf(cache).value, id) != -1 ==>
              c == cache[ArticlesKey := Entry(Articles(PatchAt(SnapshotOf(cache).value, IndexOf(SnapshotOf(cache).value, id), dto)), Ttl)]
  {
    match SnapshotOf(cache)
    case None => cache
    case Some(s) =>
      var i := IndexOf(s, id);
      if i == -1 then cache else cache[ArticlesKey := Entry(Articles(PatchAt(s, i, dto)), Ttl)]
  }

  /** The cache half of `remove`: splice out the first entry for `id` and rewrite the snapshot, if there is one to splice. */
  function ReconcileRemove(cache: map<string, Entry>, id: int): (c: map<string, Entry>)
    ensures forall k :: k != ArticlesKey ==> (k in c <==> k in cache) && (k in c ==> c[k] == cache[k])
    ensures SnapshotOf(cache).None? || IndexOf(SnapshotOf(cache).value, id) == -1 ==> c == cache
    ensures SnapshotOf(cache).Some? && IndexOf(SnapshotOf(cache).value, id) != -1 ==>
              c == cache[ArticlesKey := Entry(Articles(RemoveAt(SnapshotOf(cache).value, IndexOf(SnapshotOf(cache).value, id))), Ttl)]
  {
    match SnapshotOf(cache)
    case None => cache
    case Some(s) =>
      var i := IndexOf(s, id);
      if i == -1 then cache else cache[ArticlesKey := Entry(Articles(RemoveAt(s, i)), Ttl)]
  }

  // ---------------------------------------------------------------------------
  // The service as steps over the table and the cache
  // ---------------------------------------------------------------------------

  /** The table (rows and the next serial id) and the whole Redis key space. */
  datatype World = World(rows: map<int, Article>, nextId: int, cache: map<string, Entry>)

  /** `findAll` answers either with the parsed snapshot or with the repository's page. */
  datatype Listed = Cached(articles: seq<Article>) | Fetched(list: ArticleList)

  /** `create` inserts one row under the next serial id and never touches the cache. */
  function CreateStep(w: World, dto: ArticleDto, now: int): (r: (Article, World))
    ensures r.0.id == w.nextId && r.0.createdAt == now
    ensures r.0.title == dto.title && r.0.content == dto.content && r.0.author == dto.author
    ensures TableInvariant(w.rows, w.nextId) ==> r.0.id !in w.rows
    ensures r.1 == World(w.rows[r.0.id := r.0], w.nextId + 1, w.cache)
  {
    var a := Article(w.nextId, dto.title, dto.content, dto.author, now);
    (a, w.(rows := w.rows[a.id := a], nextId := w.nextId + 1))
  }

  /** `findAll`: the snapshot on a hit; otherwise the repository's page, whose `data` then becomes the snapshot. */
  function FindAllStep(w: World, author: Option<string>, page: int, order: Order, fault: bool): (r: (Result<Listed>, World))
    ensures r.1.rows == w.rows && r.1.nextId == w.nextId
    ensures (r.0.Ok? && r.0.value.Cached?) <==> SnapshotOf(w.cache).Some?
    ensures r.0.Err? ==> r.0.failure == FetchError && r.1 == w
    ensures forall k :: k != ArticlesKey ==> (k in r.1.cache <==> k in w.cache) && (k in r.1.cache ==> r.1.cache[k] == w.cache[k])
  {
    match SnapshotOf(w.cache)
    case Some(s) => (Ok(Cached(s)), w)
    case None =>
      match Query(w.rows, author, page, order, fault)
      case Err(f) => (Err(f), w)
      case Ok(list) => (Ok(Fetched(list)), w.(cache := w.cache[ArticlesKey := Entry(Articles(list.data), Ttl)]))
  }

  /** `findOne`: an entry with this id from the snapshot, else the table's row, else NotFound. */
  function FindOneOf(w: World, id: int): (r: Result<Article>)
    ensures r.Err? <==> id !in w.rows && (SnapshotOf(w.cache).None? || forall a :: a in SnapshotOf(w.cache).value ==> a.id != id)
    ensures r.Err? ==> r.failure == ArticleNotFound
    ensures r.Ok? ==> (SnapshotOf(w.cache).Some? && r.value in SnapshotOf(w.cache).value && r.value.id == id)
                      || (id in w.rows && r.value == w.rows[id])
  {
    var s := SnapshotOf(w.cache);
    if s.Some? && IndexOf(s.value, id) != -1 then Ok(s.value[IndexOf(s.value, id)])
    else if id in w.rows then Ok(w.rows[id])
    else Err(ArticleNotFound)
  }

  /** The cache is rewritten first; the table is asked afterwards, and its answer is returned. */
  function UpdateStep(w: World, id: int, dto: ArticleDto): (r: (Result<Article>, World))
    ensures r.1.cache == ReconcileUpdate(w.cache, id, dto) && r.1.nextId == w.nextId
    ensures r.0.Ok? <==> id in w.rows
    ensures r.0.Err? ==> r.0.failure == ArticleNotFound && r.1.rows == w.rows
    ensures r.0.Ok? ==> r.0.value == Patched(w.rows[id], dto) && r.1.rows == w.rows[id := r.0.value]
  {
    var cache := ReconcileUpdate(w.cache, id, dto);
    if id in w.rows then
      var saved := Patched(w.rows[id], dto);
      (Ok(saved), World(w.rows[id := saved], w.nextId, cache))
    else
      (Err(ArticleNotFound), w.(cache := cache))
  }

  function RemoveStep(w: World, id: int): (r: (Result<bool>, World))
    ensures r.1.cache == ReconcileRemove(w.cache, id) && r.1.nextId == w.nextId
    ensures r.0.Ok? <==> id in w.rows
    ensures r.0.Err? ==> r.0.failure == ArticleNotFound && r.1.rows == w.rows
    ensures r.0.Ok? ==> r.0.value && r.1.rows == w.rows - {id}
  {
    var cache := ReconcileRemove(w.cache, id);
    if id in w.rows then (Ok(true), World(w.rows - {id}, w.nextId, cache))
    else (Err(ArticleNotFound), w.(cache := cache))
  }

  // ---------------------------------------------------------------------------
  // Coherence: every snapshot entry is the table's current row for its id
  // ---------------------------------------------------------------------------

  ghost predicate SnapshotCoherent(cache: map<string, Entry>, rows: map<int, Article>)
  {
    match SnapshotOf(cache)
    case None => true
    case Some(s) => NoDupIds(s) && forall a :: a in s ==> a.id in rows && rows[a.id] == a
  }

  ghost predicate Coherent(w: World)
  {
    TableInvariant(w.rows, w.nextId) && SnapshotCoherent(w.cache, w.rows)
  }

  lemma CreateKeepsCoherence(w: World, dto: ArticleDto, now: int)
    requires Coherent(w)
    ensures Coherent(CreateStep(w, dto, now).1)
  {
    var (a, w') := CreateStep(w, dto, now);
    assert w.nextId !in w.rows;
  }

  lemma FindAllKeepsCoherence(w: World, author: Option<string>, page: int, order: Order, fault: bool)
    requires Coherent(w)
    ensures Coherent(FindAllStep(w, author, page, order, fault).1)
  {
    if SnapshotOf(w.cache).None? {
      var q := Query(w.rows, author, page, order, fault);
      if q.Ok? {
        var w' := FindAllStep(w, author, page, order, fault).1;
        assert w'.cache == w.cache[ArticlesKey := Entry(Articles(q.value.data), Ttl)];
        assert SnapshotOf(w'.cache).None? || SnapshotOf(w'.cache) == Some(q.value.data);
      }
    }
  }

  lemma UpdateKeepsCoherence(w: World, id: int, dto: ArticleDto)
    requires Coherent(w)
    ensures Coherent(UpdateStep(w, id, dto).1)
  {
    var w' := UpdateStep(w, id, dto).1;
    match SnapshotOf(w.cache)
    case None =>
    case Some(s) =>
      var i := IndexOf(s, id);
      if i != -1 {
        assert s[i] in s;
        assert w'.rows == w.rows[id := Patched(w.rows[id], dto)];
        PatchAtStaysCoherent(s, i, dto, w.rows);
        assert ValueAt(w'.cache, ArticlesKey) == Some(Articles(PatchAt(s, i, dto)));
      } else {
        assert forall a :: a in s ==> a.id != id;
      }
  }

  /** Patching an entry of a coherent snapshot leaves one coherent with the table patched the same way. */
  lemma PatchAtStaysCoherent(s: seq<Article>, i: int, dto: ArticleDto, rows: map<int, Article>)
    requires 0 <= i < |s| && NoDupIds(s)
    requires forall a :: a in s ==> a.id in rows && rows[a.id] == a
    ensures var t := PatchAt(s, i, dto);
            var rows' := rows[s[i].id := Patched(s[i], dto)];
            NoDupIds(t) && forall a :: a in t ==> a.id in rows' && rows'[a.id] == a
  {
    var t := PatchAt(s, i, dto);
    forall k | 0 <= k < |t|
      ensures t[k] == (if k == i then Patched(s[i], dto) else s[k]) && (k != i ==> t[k].id != s[i].id)
    {
    }
  }

  lemma RemoveKeepsCoherence(w: World, id: int)
    requires Coherent(w)
    ensures Coherent(RemoveStep(w, id).1)
  {
    var w' := RemoveStep(w, id).1;
    assert TableInvariant(w'.rows, w'.nextId) by {
      assert w'.nextId == w.nextId && (w'.rows == w.rows || w'.rows == w.rows - {id});
    }
    match SnapshotOf(w.cache)
    case None =>
      assert w'.cache == w.cache;
    case Some(s) =>
      var i := IndexOf(s, id);
      if i != -1 {
        assert s[i] in s;
        assert w'.rows == w.rows - {id};
        RemoveAtStaysCoherent(s, i, w.rows);
        assert w'.cache == w.cache[ArticlesKey := Entry(Articles(RemoveAt(s, i)), Ttl)];
        assert ValueAt(w'.cache, ArticlesKey) == Some(Articles(RemoveAt(s, i)));
      } else {
        assert w'.cache == w.cache;
        assert forall a :: a in s ==> a.id != id;
      }
  }

  /** Splicing an entry out of a coherent snapshot leaves one coherent with the table minus that row. */
  lemma RemoveAtStaysCoherent(s: seq<Article>, i: int, rows: map<int, Article>)
    requires 0 <= i < |s| && NoDupIds(s)
    requires forall a :: a in s ==> a.id in rows && rows[a.id] == a
    ensures var t := RemoveAt(s, i);
            NoDupIds(t) && forall a :: a in t ==> a.id in rows - {s[i].id} && (rows - {s[i].id})[a.id] == a
  {
    var t := RemoveAt(s, i);
    forall k | 0 <= k < |t|
      ensures t[k] == s[if k < i then k else k + 1] && t[k].id != s[i].id
    {
    }
  }

  // ---------------------------------------------------------------------------
  // What the steps promise
  // ---------------------------------------------------------------------------

  /** A hit is served verbatim, whatever author, page or order was asked for, and nothing changes. */
  lemma FindAllHitIgnoresQuery(w: World, author: Option<string>, page: int, order: Order, fault: bool)
    requires SnapshotOf(w.cache).Some?
    ensures FindAllStep(w, author, page, order, fault) == (Ok(Cached(SnapshotOf(w.cache).value)), w)
  {
  }

  /**
   * On a miss the repository is queried: its error is passed on with nothing
   * written; its page is returned whole while only the bare `data` array is
   * stored, with expiry 3600.
   */
  lemma FindAllMissPopulates(w: World, author: Option<string>, page: int, order: Order, fault: bool)
    requires SnapshotOf(w.cache).None?
    ensures var (r, w') := FindAllStep(w, author, page, order, fault);
            && w'.rows == w.rows && w'.nextId == w.nextId
            && (r.Err? <==> fault || page < 1)
            && (r.Err? ==> r.failure == FetchError && w'.cache == w.cache)
            && (r.Ok? ==> r.value == Fetched(Query(w.rows, author, page, order, fault).value)
                          && w'.cache == w.cache[ArticlesKey := Entry(Articles(r.value.list.data), Ttl)])
  {
  }

  /** Read-through: after a miss that fetched a non-empty page, every later listing is served that page. */
  lemma FindAllReadThrough(w: World, author: Option<string>, page: int, order: Order, fault: bool,
                           author': Option<string>, page': int, order': Order, fault': bool)
    requires SnapshotOf(w.cache).None?
    requires var r := FindAllStep(w, author, page, order, fault).0; r.Ok? && r.value.list.data != []
    ensures var (r, w') := FindAllStep(w, author, page, order, fault);
            FindAllStep(w', author', page', order', fault') == (Ok(Cached(r.value.list.data)), w')
  {
    var w' := FindAllStep(w, author, page, order, fault).1;
    assert ValueAt(w'.cache, ArticlesKey) == Some(Articles(FindAllStep(w, author, page, order, fault).0.value.list.data));
  }

  /**
   * On a coherent state, `findOne` answers exactly what the table holds: the
   * snapshot never serves a row the table lacks or a stale copy.
   */
  lemma FindOneAgreesWithTable(w: World, id: int)
    requires Coherent(w)
    ensures FindOneOf(w, id) == if id in w.rows then Ok(w.rows[id]) else Err(ArticleNotFound)
  {
    var s := SnapshotOf(w.cache);
    if s.Some? && IndexOf(s.value, id) != -1 {
      assert s.value[IndexOf(s.value, id)] in s.value;
    }
  }

  /** `findOne` prefers the first snapshot entry for the id, then the table, then NotFound. */
  lemma FindOneCases(w: World, id: int)
    ensures var s := SnapshotOf(w.cache);
            s.Some? && (exists j :: 0 <= j < |s.value| && s.value[j].id == id) ==>
              FindOneOf(w, id) == Ok(s.value[IndexOf(s.value, id)]) && FindOneOf(w, id).value.id == id
    ensures var s := SnapshotOf(w.cache);
            !(s.Some? && exists j :: 0 <= j < |s.value| && s.value[j].id == id) ==>
              FindOneOf(w, id) == if id in w.rows then Ok(w.rows[id]) else Err(ArticleNotFound)
  {
  }

  /**
   * Update on a snapshot that holds `id`: the first such entry is patched in
   * title, content and author, all else is kept, and the snapshot is rewritten
   * with expiry 3600. Every other key is untouched.
   */
  lemma UpdatePatchesSnapshot(w: World, id: int, dto: ArticleDto)
    requires SnapshotOf(w.cache).Some?
    requires exists j :: 0 <= j < |SnapshotOf(w.cache).value| && SnapshotOf(w.cache).value[j].id == id
    ensures var s := SnapshotOf(w.cache).value;
            var i := IndexOf(s, id);
            var c := UpdateStep(w, id, dto).1.cache;
            && 0 <= i < |s|
            && ArticlesKey in c && c[ArticlesKey].expiry == Ttl && c[ArticlesKey].value.Articles?
            && var t := c[ArticlesKey].value.items;
            && |t| == |s|
            && t[i] == s[i].(title := dto.title, content := dto.content, author := dto.author)
            && (forall j :: 0 <= j < |s| && j != i ==> t[j] == s[j])
            && (forall k :: k != ArticlesKey ==> (k in c <==> k in w.cache) && (k in c ==> c[k] == w.cache[k]))
  {
  }

  /**
   * Remove on a snapshot that holds `id`: exactly the first such entry goes,
   * the rest keep their order, and the snapshot is rewritten with expiry 3600.
   * Every other key is untouched.
   */
  lemma RemoveSplicesSnapshot(w: World, id: int)
    requires SnapshotOf(w.cache).Some?
    requires exists j :: 0 <= j < |SnapshotOf(w.cache).value| && SnapshotOf(w.cache).value[j].id == id
    ensures var s := SnapshotOf(w.cache).value;
            var i := IndexOf(s, id);
            var c := RemoveStep(w, id).1.cache;
            && 0 <= i < |s|
            && ArticlesKey in c && c[ArticlesKey].expiry == Ttl
            && c[ArticlesKey].value == Articles(s[..i] + s[i + 1..])
            && |c[ArticlesKey].value.items| == |s| - 1
            && (forall k :: k != ArticlesKey ==> (k in c <==> k in w.cache) && (k in c ==> c[k] == w.cache[k]))
  {
    var s := SnapshotOf(w.cache).value;
    var i := IndexOf(s, id);
    assert RemoveStep(w, id).1.cache == w.cache[ArticlesKey := Entry(Articles(RemoveAt(s, i)), Ttl)];
  }

  /** Removing the only entry of the snapshot writes the empty list, which later reads as a miss. */
  lemma RemoveLastEntryEmptiesSnapshot(w: World, id: int)
    requires SnapshotOf(w.cache).Some? && |SnapshotOf(w.cache).value| == 1
    requires SnapshotOf(w.cache).value[0].id == id
    ensures var c := RemoveStep(w, id).1.cache;
            ArticlesKey in c && c[ArticlesKey] == Entry(Articles([]), Ttl) && SnapshotOf(c).None?
  {
    var s := SnapshotOf(w.cache).value;
    assert IndexOf(s, id) == 0;
    assert RemoveAt(s, 0) == [];
  }

  /** With no snapshot, or none holding `id`, update and remove write no key; the table is still asked and answers. */
  lemma WritesSkipCacheOnMiss(w: World, id: int, dto: ArticleDto)
    requires SnapshotOf(w.cache).None? || forall a :: a in SnapshotOf(w.cache).value ==> a.id != id
    ensures UpdateStep(w, id, dto).1.cache == w.cache
    ensures RemoveStep(w, id).1.cache == w.cache
    ensures UpdateStep(w, id, dto).0 == if id in w.rows then Ok(Patched(w.rows[id], dto)) else Err(ArticleNotFound)
    ensures RemoveStep(w, id).0 == if id in w.rows then Ok(true) else Err(ArticleNotFound)
  {
  }

  /** `create` leaves the whole cache as it was; on a coherent state the new row is absent from the snapshot. */
  lemma CreateLeavesSnapshotStale(w: World, dto: ArticleDto, now: int)
    requires Coherent(w)
    ensures var (a, w') := CreateStep(w, dto, now);
            && w'.cache == w.cache
            && a.id !in w.rows && w'.rows == w.rows[a.id := a]
            && (SnapshotOf(w'.cache).Some? ==> a !in SnapshotOf(w'.cache).value)
  {
    assert w.nextId !in w.rows;
  }

  /**
   * On a coherent state, an update or remove that finds `id` in the snapshot
   * also finds it in the table: the rewrite-then-NotFound path is unreachable.
   */
  lemma SnapshotHitMeansTableHit(w: World, id: int, dto: ArticleDto)
    requires Coherent(w)
    requires SnapshotOf(w.cache).Some? && exists a :: a in SnapshotOf(w.cache).value && a.id == id
    ensures UpdateStep(w, id, dto).0.Ok? && RemoveStep(w, id).0.Ok?
  {
  }

  /**
   * The cache is written before the table is asked: when the snapshot lists
   * `id` but the table lacks it, update and remove still rewrite the snapshot
   * and then answer NotFound.
   */
  lemma StaleSnapshotRewrittenThenNotFound(w: World, id: int, dto: ArticleDto)
    requires SnapshotOf(w.cache).Some? && IndexOf(SnapshotOf(w.cache).value, id) != -1
    requires id !in w.rows
    ensures UpdateStep(w, id, dto) == (Err(ArticleNotFound), w.(cache := ReconcileUpdate(w.cache, id, dto)))
    ensures ReconcileUpdate(w.cache, id, dto)[ArticlesKey].value.items == PatchAt(SnapshotOf(w.cache).value, IndexOf(SnapshotOf(w.cache).value, id), dto)
    ensures RemoveStep(w, id) == (Err(ArticleNotFound), w.(cache := ReconcileRemove(w.cache, id)))
    ensures ReconcileRemove(w.cache, id) != w.cache
  {
    var s := SnapshotOf(w.cache).value;
    var i := IndexOf(s, id);
    assert |RemoveAt(s, i)| == |s| - 1;
    assert ReconcileRemove(w.cache, id)[ArticlesKey].value != w.cache[ArticlesKey].value;
  }

  /**
   * Without coherence the ordering shows: a snapshot that still lists a row
   * the table has lost is patched, and the caller still gets NotFound.
   */
  lemma StaleSnapshotPatchedThenNotFound()
    ensures var a := Article(7, "t", "c", "x", 0);
            var w := World(map[], 8, map[ArticlesKey := Entry(Articles([a]), Ttl)]);
            var dto := ArticleDto("T", "C", "X");
            var (r, w') := UpdateStep(w, 7, dto);
            r == Err(ArticleNotFound) && w'.cache[ArticlesKey].value == Articles([Patched(a, dto)])
  {
    var a := Article(7, "t", "c", "x", 0);
    var w := World(map[], 8, map[ArticlesKey := Entry(Articles([a]), Ttl)]);
    assert SnapshotOf(w.cache) == Some([a]);
  }

  /** After a successful update, `findOne` answers the patched row. */
  lemma UpdateThenFindOne(w: World, id: int, dto: ArticleDto)
    requires Coherent(w) && id in w.rows
    ensures FindOneOf(UpdateStep(w, id, dto).1, id) == Ok(Patched(w.rows[id], dto))
  {
    UpdateKeepsCoherence(w, id, dto);
    FindOneAgreesWithTable(UpdateStep(w, id, dto).1, id);
  }

  /** After a remove, `findOne` answers NotFound: the snapshot does not resurrect the row. */
  lemma RemoveThenFindOne(w: World, id: int)
    requires Coherent(w)
    ensures FindOneOf(RemoveStep(w, id).1, id) == Err(ArticleNotFound)
  {
    RemoveKeepsCoherence(w, id);
    FindOneAgreesWithTable(RemoveStep(w, id).1, id);
  }

  // ---------------------------------------------------------------------------
  // The service object
  // ---------------------------------------------------------------------------

  class ArticleService {
    const repo: ArticleRepository
    const redis: RedisCache

    constructor (repo: ArticleRepository, redis: RedisCache)
      ensures this.repo == repo && this.redis == redis
    {
      this.repo := repo;
      this.redis := redis;
    }

    function Current(): World
      reads repo, redis
    {
      World(repo.rows, repo.nextId, redis.entries)
    }

    /** `create`: straight to the repository; the cache is neither read nor written. */
    method Create(dto: ArticleDto, now: int) returns (a: Article)
      requires repo.Valid()
      modifies repo
      ensures repo.Valid()
      ensures (a, Current()) == CreateStep(old(Current()), dto, now)
      ensures old(Coherent(Current())) ==> Coherent(Current())
    {
      ghost var w := Current();
      a := repo.CreateArticle(dto.title, dto.content, dto.author, now);
      if Coherent(w) { CreateKeepsCoherence(w, dto, now); }
    }

    method FindAll(author: Option<string>, page: int, order: Order, fault: bool) returns (r: Result<Listed>)
      requires repo.Valid()
      modifies redis
      ensures (r, Current()) == FindAllStep(old(Current()), author, page, order, fault)
      ensures old(Coherent(Current())) ==> Coherent(Current())
    {
      ghost var w := Current();
      if Coherent(w) { FindAllKeepsCoherence(w, author, page, order, fault); }
      var cachedArticles := redis.Get(ArticlesKey);
      var snapshot := Snapshot(cachedArticles);
      if snapshot.Some? {
        return Ok(Cached(snapshot.value));
      }
      var articleList := repo.FindAll(author, page, order, fault);
      if articleList.Err? {
        return Err(articleList.failure);
      }
      redis.Set(ArticlesKey, Articles(articleList.value.data), Ttl);
      r := Ok(Fetched(articleList.value));
    }

    /** `findOne`: reads only; the snapshot first, then the table. */
    method FindOne(id: int) returns (r: Result<Article>)
      ensures r == FindOneOf(Current(), id)
    {
      var cachedArticles := redis.Get(ArticlesKey);
      var snapshot := Snapshot(cachedArticles);
      if snapshot.Some? {
        var articles := snapshot.value;
        var articleIndex := FindIndex(articles, id);
        if articleIndex != -1 {
          return Ok(articles[articleIndex]);
        }
      }
      var article := repo.FindOneById(id);
      if article.None? {
        return Err(ArticleNotFound);
      }
      r := Ok(article.value);
    }

    method Update(id: int, dto: ArticleDto) returns (r: Result<Article>)
      requires repo.Valid()
      modifies repo, redis
      ensures repo.Valid()
      ensures (r, Current()) == UpdateStep(old(Current()), id, dto)
      ensures old(Coherent(Current())) ==> Coherent(Current())
    {
      ghost var w := Current();
      if Coherent(w) { UpdateKeepsCoherence(w, id, dto); }
      var cachedArticles := redis.Get(ArticlesKey);
      var snapshot := Snapshot(cachedArticles);
      if snapshot.Some? {
        var articles := snapshot.value;
        var articleIndex := FindIndex(articles, id);
        if articleIndex != -1 {
          articles := articles[articleIndex := Patched(articles[articleIndex], dto)];
          redis.Set(ArticlesKey, Articles(articles), Ttl);
        }
      }
      assert redis.entries == ReconcileUpdate(w.cache, id, dto);
      r := repo.UpdateArticle(id, dto);
    }

    method Remove(id: int) returns (r: Result<bool>)
      requires repo.Valid()
      modifies repo, redis
      ensures repo.Valid()
      ensures (r, Current()) == RemoveStep(old(Current()), id)
      ensures old(Coherent(Current())) ==> Coherent(Current())
    {
      ghost var w := Current();
      if Coherent(w) { RemoveKeepsCoherence(w, id); }
      var cachedArticles := redis.Get(ArticlesKey);
      var snapshot := Snapshot(cachedArticles);
      if snapshot.Some? {
        var articles := snapshot.value;
        var articleIndex := FindIndex(articles, id);
        if articleIndex != -1 {
          articles := articles[..articleIndex] + articles[articleIndex + 1..];
          assert articles == RemoveAt(snapshot.value, IndexOf(snapshot.value, id));
          redis.Set(ArticlesKey, Articles(articles), Ttl);
        }
      }
      assert redis.entries == ReconcileRemove(w.cache, id);
      r := repo.Remove(id);
    }
  }
}
