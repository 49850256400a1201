# webtrees: a census column and the tree favorites and news blocks, in Dafny

This project models three small pieces of the webtrees genealogy application
and proves properties of them.

- **Census column "age of a female, 16 to 26"** (`Census`). For one individual
  on a census form, the column shows the age in whole years when it is over 15
  and under 26. It shows the blank string for a man. It gives no value at all
  otherwise: the PHP method falls off its end and returns null, modelled as
  `None`. The age comes from the date library. It is a parameter
  `getAge: (Date, Date) -> int`, applied to the individual's estimated birth
  date and the census date.
- **Tree favorites block** (`Favorites`). The favorite table is a sequence of
  rows held by the class `FamilyTreeFavoritesModule`, together with the next
  auto-increment id. The model covers:
  - the listing of the tree-wide favorites (`user_id` NULL), each with the
    record its xref resolves to;
  - the add action, gated on the manager check;
  - the two upserts. Each selects the first matching tree-wide row, then
    inserts a fresh row or updates that row by id;
  - the delete, scoped to the tree.
- **Tree news block** (`News`). The news table is a sequence of articles held
  by the class `FamilyTreeNewsModule`. The model covers:
  - the block's listing: the tree's articles, newest first;
  - the row selection of the edit form;
  - the edit action: update the article of this tree with a positive id, or
    insert a new one;
  - the delete action, scoped to the tree.

  A non-manager gets `AccessDenied`, and the table is left unchanged.
  `CURRENT_TIMESTAMP` is the parameter `now`.

`Tables` holds the two query shapes both blocks use. `Filter` is a WHERE
clause, in table order. `FirstMatch` is the row `fetchOneRow` returns. The
module also says what it means for a primary key to stay unique and fresh.
`Wrappers` holds `Option`, used for nullable columns and for lookups.

The state-changing actions are methods of the two classes. Each method's
`ensures` gives the new table as a function of the old one (`AddUrl`,
`AddRecord`, `DeleteFavorite`, `SaveArticle`, `DeleteArticle`). The lemmas
beside those functions state the properties: upsert uniqueness, "nothing
else changes", tree scoping, and reading back what was saved. The other
invariant is `Valid()`, which every method preserves. Ids are unique and
below the next auto-increment value. For favorites, `Valid()` also holds
`OneRowPerTarget`: each tree has at most one tree-wide favorite per url and
at most one per xref. Because every method keeps it, the condition "at most
one matching row" that the upsert lemmas assume holds for every table built
through the class.

The column's name suggests a female-only rule that is blank outside the bracket. The code differs, and the model follows the code:

- Only sex `'M'` gives the blank string. Sex `'U'` is looked at by age, just
  like `'F'`, because the code tests `=== 'M'`.
- Outside the age bracket the result is null (`None`), not the empty string.
- The doc comment of the census class speaks of a male age rounded down to
  5 years. The code does neither, and the model follows the code.

## Model

| member | source | states |
|---|---|---|
| `Census.DecimalString` | app/Census/CensusColumnAgeFemale16To26Years.php:39 | `(string) $years`: a decimal numeral without a leading zero whose value is the number; two digits for 10..99 |
| `Census.AgeFemale16To26Years` | app/Census/CensusColumnAgeFemale16To26Years.php:33-41 | `generate`: the blank string exactly for sex 'M'; any non-blank value is a decimal numeral spelling the age from `getAge`, which lies in 16..25 (both directions and the boundaries in the lemmas below) |
| `Census.AgeFemale16To26YearsOutcomes` | app/Census/CensusColumnAgeFemale16To26Years.php:33-41 | blank string iff sex is 'M'; no value iff sex is not 'M' and the age is at most 15 or at least 26; a non-blank value iff sex is not 'M' and 15 < age < 26, and that value spells the age |
| `Census.AgeFemale16To26YearsRange` | app/Census/CensusColumnAgeFemale16To26Years.php:38-39 | every non-blank value is a two-digit decimal numeral for a number in 16..25 and is that number's canonical string |
| `Census.AgeFemale16To26YearsBoundaries` | app/Census/CensusColumnAgeFemale16To26Years.php:38 | for sex other than 'M': age 15 and 26 give no value, 16 gives "16", 25 gives "25" |
| `Census.AgeFemale16To26YearsUnknownSex` | app/Census/CensusColumnAgeFemale16To26Years.php:34-37 | sex 'U' gets exactly the value sex 'F' gets |
| `Census.AgeFemale16To26YearsIgnoresHead` | app/Census/CensusColumnAgeFemale16To26Years.php:33-41 | the value does not depend on the head of household |
| `Tables.Filter` | app/Module/FamilyTreeFavoritesModule.php:155-160 | a WHERE query returns only rows of the table that satisfy the condition, and every such row |
| `Tables.FilterMultiset` | app/Module/FamilyTreeFavoritesModule.php:155-160 | a WHERE query returns each qualifying row exactly as often as the table holds it, and no other row |
| `Tables.FirstMatch` | app/Module/FamilyTreeFavoritesModule.php:240-245 | `fetchOneRow`: the index of a qualifying row with none before it, or none when no row qualifies |
| `Favorites.TreeFavorites` | app/Module/FamilyTreeFavoritesModule.php:155-160 | the listing query returns exactly the rows of the tree whose user_id is NULL, each as often as the table holds it |
| `Favorites.FamilyTreeFavoritesModule.GetFavorites` | app/Module/FamilyTreeFavoritesModule.php:153-171 | one entry per tree-wide favorite, in query order; the record is the lookup of the xref when there is one and null otherwise |
| `Favorites.AddUrl` | app/Module/FamilyTreeFavoritesModule.php:240-264 | the url upsert: one row is appended exactly when the tree has no tree-wide row for the url, and it is the new URL row under the next id; the existing rows keep their id, user, tree, xref, type and url (the lemmas `AddUrlInsertsWhenAbsent`, `AddUrlUpdatesMatch`, `AddUrlLeavesOneRow`, `AddUrlTwice`, `AddUrlKeepsKeys` and `AddUrlKeepsOneRowPerTarget` give the rest) |
| `Favorites.AddUrlInsertsWhenAbsent` | app/Module/FamilyTreeFavoritesModule.php:247-255 | with no tree-wide row for the url, exactly one row is appended: type 'URL', this tree, user_id NULL, the url, title and note, and the next id |
| `Favorites.AddUrlUpdatesMatch` | app/Module/FamilyTreeFavoritesModule.php:240-264 | with a tree-wide row for the url, the first such row gets the new note and title, and every other row is unchanged |
| `Favorites.AddUrlKeepsKeys` | app/Module/FamilyTreeFavoritesModule.php:247-264 | favorite_id stays a unique key below the next id; at most one row is added |
| `Favorites.AddUrlLeavesOneRow` | app/Module/FamilyTreeFavoritesModule.php:240-264 | at most one tree-wide row for the url before means exactly one after, carrying the new note and title |
| `Favorites.AddUrlTwice` | app/Module/FamilyTreeFavoritesModule.php:240-264 | adding the same url twice leaves one row for it, with the second note and title; the second add inserts nothing |
| `Favorites.AddRecord` | app/Module/FamilyTreeFavoritesModule.php:276-299 | the record upsert: one row is appended exactly when the tree has no tree-wide row for the xref, and it is the new record row under the next id; the existing rows keep their id, user, tree, xref, type, url and title (the lemmas `AddRecordInsertsWhenAbsent`, `AddRecordUpdatesMatch`, `AddRecordLeavesOneRow`, `AddRecordKeepsKeys` and `AddRecordKeepsOneRowPerTarget` give the rest) |
| `Favorites.AddRecordInsertsWhenAbsent` | app/Module/FamilyTreeFavoritesModule.php:283-291 | with no tree-wide row for the xref, exactly one row is appended, with the record's RECORD_TYPE, its xref, the note and the next id |
| `Favorites.AddRecordUpdatesMatch` | app/Module/FamilyTreeFavoritesModule.php:276-299 | with a tree-wide row for the xref, only the first such row's note changes |
| `Favorites.AddRecordKeepsKeys` | app/Module/FamilyTreeFavoritesModule.php:283-299 | favorite_id stays a unique key below the next id; at most one row is added |
| `Favorites.AddRecordLeavesOneRow` | app/Module/FamilyTreeFavoritesModule.php:276-299 | at most one tree-wide row for the xref before means exactly one after, carrying the new note |
| `Favorites.DeleteFavorite` | app/Module/FamilyTreeFavoritesModule.php:217-222 | the DELETE keeps exactly the rows whose id or tree differs, and adds none (`DeleteFavoriteScoped` and `DeleteFavoriteKeepsOneRowPerTarget` give uniqueness, idempotence and the invariant) |
| `Favorites.DeleteFavoriteScoped` | app/Module/FamilyTreeFavoritesModule.php:214-222 | a row is removed iff both its id and its tree match, so other trees' rows and other ids stay; the key stays unique; a second delete changes nothing |
| `Favorites.AddUrlKeepsOneRowPerTarget` | app/Module/FamilyTreeFavoritesModule.php:240-264 | the url upsert keeps, in every tree, at most one tree-wide favorite per url and per xref (for its own url and for all others) |
| `Favorites.AddRecordKeepsOneRowPerTarget` | app/Module/FamilyTreeFavoritesModule.php:276-299 | the record upsert keeps, in every tree, at most one tree-wide favorite per url and per xref |
| `Favorites.DeleteFavoriteKeepsOneRowPerTarget` | app/Module/FamilyTreeFavoritesModule.php:217-222 | a delete keeps, in every tree, at most one tree-wide favorite per url and per xref |
| `Favorites.SameTargetsKeepOneRow` | app/Module/FamilyTreeFavoritesModule.php:257-263 | an UPDATE that changes only note and title keeps at most one tree-wide favorite per url and per xref |
| `Favorites.FamilyTreeFavoritesModule.AddUrlFavorite` | app/Module/FamilyTreeFavoritesModule.php:238-265 | the table becomes the url upsert of the old table; the id counter advances only on insert; afterwards exactly one tree-wide row has the url, with the new note and title; the table invariant, including one row per url and per xref, holds |
| `Favorites.FamilyTreeFavoritesModule.AddRecordFavorite` | app/Module/FamilyTreeFavoritesModule.php:274-300 | the table becomes the record upsert of the old table; the id counter advances only on insert; afterwards exactly one tree-wide row has the xref, with the new note; the table invariant, including one row per url and per xref, holds |
| `Favorites.FamilyTreeFavoritesModule.PostAddFavoriteAction` | app/Module/FamilyTreeFavoritesModule.php:180-203 | a non-manager changes nothing; category 'url' with a non-empty url upserts with title, or the url when the title is '' or '0'; category 'record' upserts only a record that exists and can be shown; anything else changes nothing |
| `Favorites.FamilyTreeFavoritesModule.PostDeleteFavoriteAction` | app/Module/FamilyTreeFavoritesModule.php:212-228 | a non-manager changes nothing; a manager's delete removes the rows with that id in this tree |
| `News.TreeArticles` | app/Module/FamilyTreeNewsModule.php:68-73 | the query returns exactly the table's articles of the tree, each as often as the table holds it |
| `News.InsertByUpdated` | app/Module/FamilyTreeNewsModule.php:69 | inserting into a newest-first list keeps it newest first and adds exactly that article |
| `News.SortNewestFirst` | app/Module/FamilyTreeNewsModule.php:69 | `ORDER BY updated DESC`: the result is newest first and a permutation of the input |
| `News.BlockArticles` | app/Module/FamilyTreeNewsModule.php:68-73 | the block lists exactly the tree's articles, each as often as in the table, newest first |
| `News.BlockArticlesStrictlyNewestFirst` | app/Module/FamilyTreeNewsModule.php:69 | when the tree's articles have distinct times, the listing's times strictly decrease |
| `News.EditDraft` | app/Module/FamilyTreeNewsModule.php:148-162 | the row selection: an empty draft for an id that is not positive; for a positive id, no draft exactly when no article has that id in this tree, and otherwise the subject and body of such an article |
| `News.GetEditNews` | app/Module/FamilyTreeNewsModule.php:142-172 | denied exactly for a non-manager; a manager's form carries the requested id, and an empty draft for an id that is not positive (`GetEditNewsReadsTarget` gives the positive case) |
| `News.GetEditNewsReadsTarget` | app/Module/FamilyTreeNewsModule.php:142-172 | denied iff not a manager; an empty form for a non-positive id; for a positive id, a draft iff an article with that id is in this tree, filled from it; the result depends only on those rows |
| `News.UpdateArticles` | app/Module/FamilyTreeNewsModule.php:190-199 | the UPDATE: same length; every row keeps its id, user and tree; the rows matching id and tree get the new subject, body and time, and every other row is unchanged |
| `News.SaveArticle` | app/Module/FamilyTreeNewsModule.php:190-207 | a positive id keeps the table's length; otherwise the old table is followed by exactly one row under the next id; existing rows keep their id and tree (`SaveArticleUpdatesTarget`, `SaveArticleInsertsOne`, `SaveArticleOtherTrees`, `SaveArticleKeepsKeys` and the read-back lemmas give the rest) |
| `News.SaveArticleUpdatesTarget` | app/Module/FamilyTreeNewsModule.php:190-199 | a positive id rewrites subject, body and time of exactly the rows matching id and tree, and no row otherwise; with no match the table is unchanged |
| `News.SaveArticleInsertsOne` | app/Module/FamilyTreeNewsModule.php:200-207 | an absent or non-positive id appends exactly one article with the tree, subject, body and current time, so the tree has one article more |
| `News.SaveArticleOtherTrees` | app/Module/FamilyTreeNewsModule.php:190-207 | saving leaves every other tree's articles as they were |
| `News.SaveArticleKeepsKeys` | app/Module/FamilyTreeNewsModule.php:190-207 | news_id stays a unique key below the next id; at most one row is added |
| `News.SaveArticleThenEditUpdated` | app/Module/FamilyTreeNewsModule.php:150-199 | after updating an existing article, the edit form for its id shows the new subject and body |
| `News.SaveArticleThenEditInserted` | app/Module/FamilyTreeNewsModule.php:150-207 | after inserting, the edit form for the new id shows the new subject and body |
| `News.SaveArticleNewestHeadsListing` | app/Module/FamilyTreeNewsModule.php:68-207 | an article inserted later than every article of the tree heads the tree's listing |
| `News.DeleteArticle` | app/Module/FamilyTreeNewsModule.php:231-236 | the DELETE keeps exactly the rows whose id or tree differs (an absent id keeps every row), and adds none |
| `News.DeleteArticleScoped` | app/Module/FamilyTreeNewsModule.php:231-236 | an article is removed iff both its id and its tree match; every other tree's articles are untouched; the key stays unique; the form then finds no article for that id |
| `News.FamilyTreeNewsModule.PostEditNewsAction` | app/Module/FamilyTreeNewsModule.php:180-215 | a non-manager gets access denied and nothing changes; a manager gets a redirect, and the table becomes the saved table |
| `News.FamilyTreeNewsModule.PostDeleteNewsAction` | app/Module/FamilyTreeNewsModule.php:223-243 | a non-manager gets access denied and nothing changes; a manager gets a redirect, and the article is deleted from this tree |

## Left out

- HTML rendering is not modelled. This covers `view`, the block-template wrapping, the `limit => 5` view parameter, `I18N::translate`, `route` and `RedirectResponse`; they are presentation. The favorites actions return nothing, and the news actions return only `Redirect` or `AccessDenied`.
- The favorites `getBlock` is modelled only through `getFavorites`. Its other view parameter (`is_manager`) is presentation.
- Favorites.HasUrl and Favorites.HasXref: the SQL comparisons `url = :url` and `xref = :xref` are modelled as exact string equality. The database collation that decides them in the program is not modelled, and neither are the column widths. A case-insensitive collation would treat `HTTP://Example.org` and `http://example.org` as the same url, and the program would update the existing row; `AddUrl` appends a second row instead. The table schema is not part of this model. The upsert lemmas and `OneRowPerTarget` hold for exact equality only.
- SQL text, the table prefix and auto-increment mechanics are abstracted. Tables are sequences of rows, and the next id is a counter starting at 1.
- The listing returns the stored `updated` value, not `UNIX_TIMESTAMP(updated) + WT_TIMESTAMP_OFFSET`. The constant offset is framework configuration.
- `Auth::isManager`, `GedcomRecord::getInstance`, `canShow`, `RECORD_TYPE` and `Date::getAge` are foreign code. They become a boolean `isManager`, a lookup function `getInstance`, fields of `GedcomRecord`, and the function `getAge`.
- Row order is modelled as table order wherever SQL gives no ORDER BY (the favorites listing, and the row `fetchOneRow` picks).
- Ties in `ORDER BY updated DESC` are unspecified in SQL. `BlockArticles` fixes one order for them; only "newest first" and the article multiset are stated.
- The read-then-write race of the favorites upsert under concurrent requests is not modelled. The model is sequential.
- The news id from the request is modelled as absent (null) or an integer. A non-numeric string is not modelled, because PHP's comparison `$news_id > 0` on such strings depends on the PHP version.
- An absent `subject` or `body` request field (null) is not modelled. Both are strings.
- `getEditNewsAction` with a positive id that matches no row reads properties of null in PHP. The model gives a form with no draft (`None`).
- `getFavorites` adds a `record` property to the fetched row objects. The model returns new pairs of row and record instead of changing the rows in place.
