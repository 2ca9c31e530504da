/**
 * Both services write to the one Redis client the application module
 * provides. The article snapshot lives under "articles" and each account
 * under "user" + username, so neither service ever overwrites the other's
 * keys, and each one's cache invariant survives the other's operations.
 */
module SharedCache {
  import opened Wrappers
  import opened Entities
  import opened Cache
  import ArticleSvc
  import Auth

  /** Registering or logging in leaves the article snapshot as it was, and with it the snapshot's coherence. */
  lemma AuthLeavesSnapshot(c: Auth.Crypto, aw: Auth.AuthWorld, data: UserDto, v: Auth.Variant, rows: map<int, Article>)
    ensures ArticleSvc.SnapshotOf(Auth.RegisterStep(c, aw, data, v).1.cache) == ArticleSvc.SnapshotOf(aw.cache)
    ensures ArticleSvc.SnapshotOf(Auth.AuthenticateStep(c, aw, data, v).1.cache) == ArticleSvc.SnapshotOf(aw.cache)
    ensures ArticleSvc.SnapshotCoherent(aw.cache, rows) ==>
              ArticleSvc.SnapshotCoherent(Auth.RegisterStep(c, aw, data, v).1.cache, rows)
              && ArticleSvc.SnapshotCoherent(Auth.AuthenticateStep(c, aw, data, v).1.cache, rows)
  {
    UserKeyNotArticlesKey(data.username);
  }

  /** No article operation touches an account key. */
  lemma ArticleStepsLeaveAccounts(w: ArticleSvc.World, name: string, dto: ArticleDto, now: int, id: int,
                                  author: Option<string>, page: int, order: Order, fault: bool)
    ensures ValueAt(ArticleSvc.CreateStep(w, dto, now).1.cache, UserKey(name)) == ValueAt(w.cache, UserKey(name))
    ensures ValueAt(ArticleSvc.FindAllStep(w, author, page, order, fault).1.cache, UserKey(name)) == ValueAt(w.cache, UserKey(name))
    ensures ValueAt(ArticleSvc.UpdateStep(w, id, dto).1.cache, UserKey(name)) == ValueAt(w.cache, UserKey(name))
    ensures ValueAt(ArticleSvc.RemoveStep(w, id).1.cache, UserKey(name)) == ValueAt(w.cache, UserKey(name))
  {
    UserKeyNotArticlesKey(name);
  }
}
