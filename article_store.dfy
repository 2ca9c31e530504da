/**
 * `ArticleRepository`: the `article` table behind the service, held as a map
 * from id to row. Ids come from a SERIAL counter and are never reused.
 */
module ArticleStore {
  import opened Wrappers
  import opened Entities
  import opened Listing

  /** The fields an update overwrites: title, content and author; id and createdAt stay. */
  function Patched(a: Article, dto: ArticleDto): (r: Article)
    ensures r.id == a.id && r.createdAt == a.createdAt
    ensures r.title == dto.title && r.content == dto.content && r.author == dto.author
  {
    a.(title := dto.title, content := dto.content, author := dto.author)
  }

  /** Every row sits under its own id, and every id lies below the next serial value. */
  ghost predicate TableInvariant(rows: map<int, Article>, nextId: int)
  {
    KeyedById(rows) && forall k :: k in rows ==> k < nextId
  }

  class ArticleRepository {
    var rows: map<int, Article>
    var nextId: int

    ghost predicate Valid()
      reads this
    {
      TableInvariant(rows, nextId)
    }

    constructor ()
      ensures Valid() && rows == map[] && nextId == 1
    {
      rows := map[];
      nextId := 1;
    }

    /** `createArticle`: inserts a fresh row stamped with the database clock `now`. */
    method CreateArticle(title: string, content: string, author: string, now: int) returns (a: Article)
      requires Valid()
      modifies this
      ensures Valid()
      ensures a.id !in old(rows) && rows == old(rows)[a.id := a]
      ensures a.title == title && a.content == content && a.author == author && a.createdAt == now
      ensures a.id == old(nextId) && nextId == old(nextId) + 1
    {
      a := Article(nextId, title, content, author, now);
      rows := rows[nextId := a];
      nextId := nextId + 1;
    }

    /** `findAll`: one page of the filtered, ordered rows and the paging figures. */
    method FindAll(author: Option<string>, page: int, order: Order, fault: bool) returns (r: Result<ArticleList>)
      ensures r == Query(rows, author, page, order, fault)
    {
      r := Query(rows, author, page, order, fault);
    }

    /** `findOneById`: the row with this id, or null. */
    method FindOneById(id: int) returns (r: Option<Article>)
      ensures r == Lookup(rows, id)
    {
      r := Lookup(rows, id);
    }

    /** `updateArticle`: NotFound for an unknown id, else overwrite title, content and author and save. */
    method UpdateArticle(id: int, dto: ArticleDto) returns (r: Result<Article>)
      requires Valid()
      modifies this
      ensures Valid() && nextId == old(nextId)
      ensures id !in old(rows) ==> r == Err(ArticleNotFound) && rows == old(rows)
      ensures id in old(rows) ==> r == Ok(Patched(old(rows)[id], dto)) && rows == old(rows)[id := r.value]
    {
      var article := FindOneById(id);
      if article.None? {
        return Err(ArticleNotFound);
      }
      var saved := Patched(article.value, dto);
      rows := rows[id := saved];
      r := Ok(saved);
    }

    /**
     * `remove`: NotFound for an unknown id, else delete the row and answer true.
     * TypeORM's `delete` always yields a result object, so the "Error deleting
     * article" branch after it is never taken.
     */
    method Remove(id: int) returns (r: Result<bool>)
      requires Valid()
      modifies this
      ensures Valid() && nextId == old(nextId)
      ensures id !in old(rows) ==> r == Err(ArticleNotFound) && rows == old(rows)
      ensures id in old(rows) ==> r == Ok(true) && rows == old(rows) - {id}
    {
      var article := FindOneById(id);
      if article.None? {
        return Err(ArticleNotFound);
      }
      rows := rows - {id};
      r := Ok(true);
    }
  }
}
