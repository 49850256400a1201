/**
  The family-tree news block: the articles of the news table that belong to a
  tree, listed newest first, edited through one form (update the article with
  a positive id in this tree, otherwise insert a new one) and deleted, with
  every change refused with an access-denied error to non-managers.
  CURRENT_TIMESTAMP is the parameter `now`.
 */
module News {
  import opened Wrappers
  import opened Tables

  /** One row of the news table. */
  datatype Article = Article(newsId: int, userId: Option<int>, gedcomId: int, subject: string, body: string, updated: int)

  /** The subject and body the edit form is filled with. */
  datatype Draft = Draft(subject: string, body: string)

  /** How a post action ends: a redirect to the tree page, or AccessDeniedHttpException. */
  datatype Outcome = Redirect | AccessDenied

  /** The response of getEditNewsAction: access denied, or the edit form. */
  datatype EditPage = EditDenied | EditForm(newsId: Option<int>, draft: Option<Draft>)

  /** The primary key. */
  function ArticleId(a: Article): int
  {
    a.newsId
  }

  /** WHERE gedcom_id = :tree_id */
  function InTree(tree: int): Article -> bool
  {
    (a: Article) => a.gedcomId == tree
  }

  /** WHERE news_id = :news_id AND gedcom_id = :tree_id */
  function IsTarget(newsId: int, tree: int): Article -> bool
  {
    (a: Article) => a.newsId == newsId && a.gedcomId == tree
  }

  /**
    The rows a DELETE ... WHERE news_id = :news_id AND gedcom_id = :tree_id
    keeps; an absent news_id is bound as NULL and matches no row.
   */
  function IsKept(newsId: Option<int>, tree: int): Article -> bool
  {
    (a: Article) => !(newsId == Some(a.newsId) && a.gedcomId == tree)
  }

  /** PHP's `$news_id > 0` for a request value that is absent (null) or a number. */
  predicate IsPositive(newsId: Option<int>)
  {
    newsId.Some? && newsId.value > 0
  }

  /** The articles of one tree, in table order. */
  function TreeArticles(rows: seq<Article>, tree: int): (r: seq<Article>)
    ensures forall k :: 0 <= k < |r| ==> r[k] in rows && r[k].gedcomId == tree
    ensures forall k :: 0 <= k < |rows| && rows[k].gedcomId == tree ==> rows[k] in r
    ensures forall a :: multiset(r)[a] == if a.gedcomId == tree then multiset(rows)[a] else 0
  {
    FilterMultiset(rows, InTree(tree));
    Filter(rows, InTree(tree))
  }

  /** ORDER BY updated DESC */
  predicate NewestFirst(s: seq<Article>)
  {
    forall i, j :: 0 <= i < j < |s| ==> s[i].updated >= s[j].updated
  }

  /** Insert `a` into a list ordered newest first, before the first article not newer than it. */
  function InsertByUpdated(a: Article, s: seq<Article>): (r: seq<Article>)
    requires NewestFirst(s)
    ensures NewestFirst(r)
    ensures multiset(r) == multiset(s) + multiset{a}
  {
    if s == [] then [a]
    else if a.updated >= s[0].updated then
      PrependNewestFirst(a, s);
      [a] + s
    else
      assert s == [s[0]] + s[1..];
      var rest := InsertByUpdated(a, s[1..]);
      InsertedBelowHead(a, s, rest);
      PrependNewestFirst(s[0], rest);
      [s[0]] + rest
  }

  /** An article at least as new as every article of a newest-first list may go in front. */
  lemma PrependNewestFirst(x: Article, s: seq<Article>)
    requires NewestFirst(s)
    requires s != [] ==> x.updated >= s[0].updated
    ensures NewestFirst([x] + s)
  {
  }

  /** Inserting an article older than the head of `s` into its tail keeps everything below the head. */
  lemma InsertedBelowHead(a: Article, s: seq<Article>, rest: seq<Article>)
    requires NewestFirst(s) && s != [] && a.updated < s[0].updated
    requires multiset(rest) == multiset(s[1..]) + multiset{a}
    ensures rest != [] ==> s[0].updated >= rest[0].updated
  {
    if rest != [] {
      assert rest[0] in multiset(rest);
      if rest[0] != a {
        assert rest[0] in multiset(s[1..]);
        var m :| 0 <= m < |s[1..]| && s[1..][m] == rest[0];
        assert s[1..][m] == s[m + 1];
      }
    }
  }

  /** The articles of `s`, newest first. */
  function SortNewestFirst(s: seq<Article>): (r: seq<Article>)
    ensures NewestFirst(r)
    ensures multiset(r) == multiset(s)
  {
    if s == [] then []
    else
      assert s == [s[0]] + s[1..];
      InsertByUpdated(s[0], SortNewestFirst(s[1..]))
  }

  /**
    The query of getBlock: exactly the tree's articles, each as often as in the
    table, newest first.
   */
  function BlockArticles(rows: seq<Article>, tree: int): (r: seq<Article>)
    ensures NewestFirst(r)
    ensures multiset(r) == multiset(TreeArticles(rows, tree))
    ensures forall k :: 0 <= k < |r| ==> r[k] in rows && r[k].gedcomId == tree
    ensures forall k :: 0 <= k < |rows| && rows[k].gedcomId == tree ==> rows[k] in r
  {
    var t := TreeArticles(rows, tree);
    var r := SortNewestFirst(t);
    assert forall k :: 0 <= k < |r| ==> r[k] in multiset(t);
    assert forall k :: 0 <= k < |rows| && rows[k].gedcomId == tree ==> rows[k] in multiset(r);
    r
  }

  /**
    The row selection of getEditNewsAction: an empty draft when the id is not
    positive, else the subject and body of the article with that id in this
    tree, if there is one.
   */
  function EditDraft(rows: seq<Article>, tree: int, newsId: Option<int>): (r: Option<Draft>)
    ensures !IsPositive(newsId) ==> r == Some(Draft("", ""))
    ensures r.None? <==> IsPositive(newsId) && forall k :: 0 <= k < |rows| ==> !IsTarget(newsId.value, tree)(rows[k])
    ensures IsPositive(newsId) && r.Some? ==>
              exists k :: 0 <= k < |rows| && IsTarget(newsId.value, tree)(rows[k]) && r.value == Draft(rows[k].subject, rows[k].body)
  {
    if IsPositive(newsId) then
      match FirstMatch(rows, IsTarget(newsId.value, tree))
      case None => None
      case Some(k) => Some(Draft(rows[k].subject, rows[k].body))
    else Some(Draft("", ""))
  }

  /** getEditNewsAction: the edit form for a manager, access denied otherwise. */
  function GetEditNews(rows: seq<Article>, tree: int, isManager: bool, newsId: Option<int>): (page: EditPage)
    ensures page == EditDenied <==> !isManager
    ensures isManager ==> page.newsId == newsId
    ensures isManager && !IsPositive(newsId) ==> page.draft == Some(Draft("", ""))
  {
    if !isManager then EditDenied else EditForm(newsId, EditDraft(rows, tree, newsId))
  }

  /** UPDATE ... SET subject, body, updated = CURRENT_TIMESTAMP WHERE news_id AND gedcom_id */
  function UpdateArticles(rows: seq<Article>, newsId: int, tree: int, subject: string, body: string, now: int): (r: seq<Article>)
    ensures |r| == |rows|
    ensures forall k :: 0 <= k < |rows| ==>
              r[k].newsId == rows[k].newsId && r[k].userId == rows[k].userId && r[k].gedcomId == rows[k].gedcomId
    ensures forall k :: 0 <= k < |rows| && IsTarget(newsId, tree)(rows[k]) ==>
              r[k].subject == subject && r[k].body == body && r[k].updated == now
    ensures forall k :: 0 <= k < |rows| && !IsTarget(newsId, tree)(rows[k]) ==> r[k] == rows[k]
  {
    seq(|rows|, k requires 0 <= k < |rows| =>
      if IsTarget(newsId, tree)(rows[k]) then rows[k].(subject := subject, body := body, updated := now) else rows[k])
  }

  /** The row the INSERT of postEditNewsAction adds; user_id is left NULL. */
  function NewArticle(newsId: int, tree: int, subject: string, body: string, now: int): Article
  {
    Article(newsId, None, tree, subject, body, now)
  }

  /** The table after a manager's postEditNewsAction; `nextId` is the next auto-increment value. */
  function SaveArticle(rows: seq<Article>, nextId: int, tree: int, newsId: Option<int>,
                       subject: string, body: string, now: int): (r: seq<Article>)
    ensures IsPositive(newsId) ==> |r| == |rows|
    ensures !IsPositive(newsId) ==> |r| == |rows| + 1 && r[..|rows|] == rows && r[|rows|].newsId == nextId
    ensures forall k :: 0 <= k < |rows| ==> r[k].newsId == rows[k].newsId && r[k].gedcomId == rows[k].gedcomId
  {
    if IsPositive(newsId) then UpdateArticles(rows, newsId.value, tree, subject, body, now)
    else rows + [NewArticle(nextId, tree, subject, body, now)]
  }

  /** The table after a manager's postDeleteNewsAction. */
  function DeleteArticle(rows: seq<Article>, tree: int, newsId: Option<int>): (r: seq<Article>)
    ensures |r| <= |rows|
    ensures forall k :: 0 <= k < |r| ==> r[k] in rows && !(newsId == Some(r[k].newsId) && r[k].gedcomId == tree)
    ensures forall k :: 0 <= k < |rows| && !(newsId == Some(rows[k].newsId) && rows[k].gedcomId == tree) ==> rows[k] in r
  {
    Filter(rows, IsKept(newsId, tree))
  }

  /** The listing contains no two articles with the same time when the tree has none. */
  lemma BlockArticlesStrictlyNewestFirst(rows: seq<Article>, tree: int)
    requires var t := TreeArticles(rows, tree); forall i, j :: 0 <= i < j < |t| ==> t[i].updated != t[j].updated
    ensures var r := BlockArticles(rows, tree); forall i, j :: 0 <= i < j < |r| ==> r[i].updated > r[j].updated
  {
    NewestFirstDistinct(TreeArticles(rows, tree), BlockArticles(rows, tree));
  }

  /** A newest-first permutation of articles with distinct times has strictly decreasing times. */
  lemma NewestFirstDistinct(t: seq<Article>, r: seq<Article>)
    requires forall i, j :: 0 <= i < j < |t| ==> t[i].updated != t[j].updated
    requires NewestFirst(r) && multiset(r) == multiset(t)
    ensures forall i, j :: 0 <= i < j < |r| ==> r[i].updated > r[j].updated
  {
    forall i, j | 0 <= i < j < |r| ensures r[i].updated > r[j].updated {
      if r[i] == r[j] {
        TwoPositionsCountTwice(r, i, j);
        var i', j' := CountTwiceTwoPositions(t, r[i]);
      } else {
        assert r[i] in multiset(t) && r[j] in multiset(t);
        var m :| 0 <= m < |t| && t[m] == r[i];
        var n :| 0 <= n < |t| && t[n] == r[j];
        assert m < n || n < m;
      }
    }
  }

  /**
    The edit form: refused to non-managers; empty for an id that is not
    positive; for a positive id, filled from an article with that id in this
    tree exactly when there is one, and depending on no other row.
   */
  lemma GetEditNewsReadsTarget(rows: seq<Article>, tree: int, isManager: bool, newsId: Option<int>)
    ensures var page := GetEditNews(rows, tree, isManager, newsId);
            && (page == EditDenied <==> !isManager)
            && (isManager && !IsPositive(newsId) ==> page == EditForm(newsId, Some(Draft("", ""))))
            && (isManager && IsPositive(newsId) ==>
                  var matches := Filter(rows, IsTarget(newsId.value, tree));
                  && page.newsId == newsId
                  && (page.draft.Some? <==> matches != [])
                  && (page.draft.Some? ==> page.draft.value == Draft(matches[0].subject, matches[0].body))
                  && page == GetEditNews(matches, tree, isManager, newsId))
  {
    if IsPositive(newsId) {
      var p := IsTarget(newsId.value, tree);
      var matches := Filter(rows, p);
      FirstMatchIsFirstFiltered(rows, p);
      FirstMatchIsFirstFiltered(matches, p);
      FilterIdempotent(rows, p);
    }
  }

  /**
    Editing with a positive id rewrites subject, body and time of the articles
    with that id in this tree and of no other row; with no such article the
    table is unchanged.
   */
  lemma SaveArticleUpdatesTarget(rows: seq<Article>, nextId: int, tree: int, newsId: Option<int>,
                                 subject: string, body: string, now: int)
    requires IsPositive(newsId)
    ensures var r := SaveArticle(rows, nextId, tree, newsId, subject, body, now);
            && |r| == |rows|
            && (forall k :: 0 <= k < |rows| && rows[k].newsId == newsId.value && rows[k].gedcomId == tree ==>
                  r[k] == rows[k].(subject := subject, body := body, updated := now))
            && (forall k :: 0 <= k < |rows| && !(rows[k].newsId == newsId.value && rows[k].gedcomId == tree) ==>
                  r[k] == rows[k])
            && (Filter(rows, IsTarget(newsId.value, tree)) == [] ==> r == rows)
  {
    var r := SaveArticle(rows, nextId, tree, newsId, subject, body, now);
    if Filter(rows, IsTarget(newsId.value, tree)) == [] {
      FilterEmpty(rows, IsTarget(newsId.value, tree));
      assert r == rows;
    }
  }

  /**
    Editing with an absent or non-positive id inserts exactly one article,
    carrying the tree, subject, body and current time, so the tree has one
    article more.
   */
  lemma {:induction false} SaveArticleInsertsOne(rows: seq<Article>, nextId: int, tree: int, newsId: Option<int>,
                                                 subject: string, body: string, now: int)
    requires !IsPositive(newsId)
    ensures var r := SaveArticle(rows, nextId, tree, newsId, subject, body, now);
            && r == rows + [Article(nextId, None, tree, subject, body, now)]
            && |TreeArticles(r, tree)| == |TreeArticles(rows, tree)| + 1
  {
    FilterAppend(rows, NewArticle(nextId, tree, subject, body, now), InTree(tree));
  }

  /** Saving an article leaves the articles of every other tree as they were. */
  lemma {:induction false} SaveArticleOtherTrees(rows: seq<Article>, nextId: int, tree: int, newsId: Option<int>,
                                                 subject: string, body: string, now: int, other: int)
    requires other != tree
    ensures TreeArticles(SaveArticle(rows, nextId, tree, newsId, subject, body, now), other) == TreeArticles(rows, other)
  {
    var r := SaveArticle(rows, nextId, tree, newsId, subject, body, now);
    if IsPositive(newsId) {
      var p := IsTarget(newsId.value, tree);
      assert forall k :: 0 <= k < |rows| ==> r[k] == if p(rows[k]) then rows[k].(subject := subject, body := body, updated := now) else rows[k];
      FilterSame(rows, r, InTree(other));
    } else {
      FilterAppend(rows, NewArticle(nextId, tree, subject, body, now), InTree(other));
    }
  }

  /** Saving keeps news_id a primary key and uses an id only when it inserts. */
  lemma SaveArticleKeepsKeys(rows: seq<Article>, nextId: int, tree: int, newsId: Option<int>,
                             subject: string, body: string, now: int)
    requires UniqueKeys(rows, ArticleId) && KeysBelow(rows, ArticleId, nextId)
    ensures var r := SaveArticle(rows, nextId, tree, newsId, subject, body, now);
            && (|r| == |rows| || |r| == |rows| + 1)
            && UniqueKeys(r, ArticleId)
            && KeysBelow(r, ArticleId, nextId + |r| - |rows|)
  {
    var r := SaveArticle(rows, nextId, tree, newsId, subject, body, now);
    if IsPositive(newsId) {
      assert forall k :: 0 <= k < |r| ==> ArticleId(r[k]) == ArticleId(rows[k]);
    } else {
      forall i, j | 0 <= i < j < |r| ensures ArticleId(r[i]) != ArticleId(r[j]) {
        if j == |rows| {
          assert ArticleId(r[i]) == ArticleId(rows[i]) < nextId;
        } else {
          assert r[i] == rows[i] && r[j] == rows[j];
        }
      }
    }
  }

  /** An article updated through the form reads back with the new subject and body. */
  lemma SaveArticleThenEditUpdated(rows: seq<Article>, nextId: int, tree: int, newsId: Option<int>,
                                   subject: string, body: string, now: int)
    requires IsPositive(newsId)
    requires Filter(rows, IsTarget(newsId.value, tree)) != []
    ensures EditDraft(SaveArticle(rows, nextId, tree, newsId, subject, body, now), tree, newsId) == Some(Draft(subject, body))
  {
    var r := SaveArticle(rows, nextId, tree, newsId, subject, body, now);
    var p := IsTarget(newsId.value, tree);
    FirstMatchIsFirstFiltered(rows, p);
    FirstMatchSameRows(rows, r, p);
  }

  /** An article inserted through the form reads back, under the next id, with its subject and body. */
  lemma SaveArticleThenEditInserted(rows: seq<Article>, nextId: int, tree: int, newsId: Option<int>,
                                    subject: string, body: string, now: int)
    requires !IsPositive(newsId)
    requires KeysBelow(rows, ArticleId, nextId) && nextId > 0
    ensures EditDraft(SaveArticle(rows, nextId, tree, newsId, subject, body, now), tree, Some(nextId)) == Some(Draft(subject, body))
  {
    var p := IsTarget(nextId, tree);
    assert forall k :: 0 <= k < |rows| ==> ArticleId(rows[k]) < nextId;
    FirstMatchAppended(rows, NewArticle(nextId, tree, subject, body, now), p);
  }

  /**
    An article inserted with a time later than every article of the tree
    heads the tree's listing.
   */
  lemma SaveArticleNewestHeadsListing(rows: seq<Article>, nextId: int, tree: int, newsId: Option<int>,
                                      subject: string, body: string, now: int)
    requires !IsPositive(newsId)
    requires forall k :: 0 <= k < |rows| && rows[k].gedcomId == tree ==> rows[k].updated < now
    ensures var listing := BlockArticles(SaveArticle(rows, nextId, tree, newsId, subject, body, now), tree);
            listing != [] && listing[0] == NewArticle(nextId, tree, subject, body, now)
  {
    var r := SaveArticle(rows, nextId, tree, newsId, subject, body, now);
    var a := NewArticle(nextId, tree, subject, body, now);
    var listing := BlockArticles(r, tree);
    assert r[|rows|] == a;
    assert a in listing;
    var m :| 0 <= m < |listing| && listing[m] == a;
    assert listing[0].updated >= now;
    assert listing[0] in r;
  }

  /**
    Delete is scoped to the tree: an article goes exactly when both its id and
    its tree match, the other trees' articles are untouched, the key stays
    unique, and the form for a deleted positive id finds nothing.
   */
  lemma DeleteArticleScoped(rows: seq<Article>, tree: int, newsId: Option<int>)
    requires UniqueKeys(rows, ArticleId)
    ensures var r := DeleteArticle(rows, tree, newsId);
            && (forall k :: 0 <= k < |rows| && !(newsId == Some(rows[k].newsId) && rows[k].gedcomId == tree) ==> rows[k] in r)
            && (forall k :: 0 <= k < |r| ==> r[k] in rows && !(newsId == Some(r[k].newsId) && r[k].gedcomId == tree))
            && (forall other :: other != tree ==> TreeArticles(r, other) == TreeArticles(rows, other))
            && UniqueKeys(r, ArticleId)
            && (IsPositive(newsId) ==> EditDraft(r, tree, newsId) == None)
  {
    var r := DeleteArticle(rows, tree, newsId);
    forall other | other != tree
      ensures TreeArticles(r, other) == TreeArticles(rows, other)
    {
      FilterSubsumed(rows, IsKept(newsId, tree), InTree(other));
    }
    FilterKeepsUniqueKeys(rows, IsKept(newsId, tree), ArticleId);
  }

  /** The news table of the site, with the news block's actions on it. */
  class FamilyTreeNewsModule {
    var articles: seq<Article>
    /** The next value of the table's auto-increment counter (ids start at 1). */
    var nextId: int

    ghost predicate Valid()
      reads this
    {
      UniqueKeys(articles, ArticleId) && KeysBelow(articles, ArticleId, nextId) && nextId > 0
    }

    constructor ()
      ensures Valid() && articles == []
    {
      articles := [];
      nextId := 1;
    }

    /**
      postEditNewsAction. A non-manager gets access denied and the table is
      untouched; a manager updates the article with a positive id in this
      tree, or inserts a new one.
     */
    method PostEditNewsAction(tree: int, isManager: bool, newsId: Option<int>, subject: string, body: string, now: int)
      returns (outcome: Outcome)
      requires Valid()
      modifies this
      ensures Valid()
      ensures outcome == (if isManager then Redirect else AccessDenied)
      ensures !isManager ==> articles == old(articles) && nextId == old(nextId)
      ensures isManager ==> articles == SaveArticle(old(articles), old(nextId), tree, newsId, subject, body, now)
      ensures nextId == old(nextId) + |articles| - |old(articles)|
    {
      if !isManager {
        return AccessDenied;
      }
      SaveArticleKeepsKeys(articles, nextId, tree, newsId, subject, body, now);
      if IsPositive(newsId) {
        articles := UpdateArticles(articles, newsId.value, tree, subject, body, now);
      } else {
        articles := articles + [NewArticle(nextId, tree, subject, body, now)];
        nextId := nextId + 1;
      }
      outcome := Redirect;
    }

    /**
      postDeleteNewsAction. A non-manager gets access denied and the table is
      untouched; a manager deletes the article with that id in this tree.
     */
    method PostDeleteNewsAction(tree: int, isManager: bool, newsId: Option<int>) returns (outcome: Outcome)
      requires Valid()
      modifies this
      ensures Valid() && nextId == old(nextId)
      ensures outcome == (if isManager then Redirect else AccessDenied)
      ensures !isManager ==> articles == old(articles)
      ensures isManager ==> articles == DeleteArticle(old(articles), tree, newsId)
    {
      if !isManager {
        return AccessDenied;
      }
      FilterKeepsUniqueKeys(articles, IsKept(newsId, tree), ArticleId);
      articles := DeleteArticle(articles, tree, newsId);
      outcome := Redirect;
    }
  }
}
