/**
  The family-tree favorites block: the tree-wide rows of the favorite table
  (user_id NULL), listed, added as URL or record favorites (select the matching
  tree-wide row, then insert a fresh row or update that one) and deleted, with
  every change gated on the actor being a manager of the tree.
 */
module Favorites {
  import opened Wrappers
  import opened Tables

  /** One row of the favorite table. */
  datatype Favorite = Favorite(
    favoriteId: int,
    userId: Option<int>,
    gedcomId: int,
    xref: Option<string>,
    favoriteType: string,
    title: Option<string>,
    note: Option<string>,
    url: Option<string>)

  /**
    What GedcomRecord::getInstance finds for an xref: the record's own xref,
    its RECORD_TYPE, and whether the acting user may see it (canShow).
   */
  datatype GedcomRecord = GedcomRecord(xref: string, recordType: string, canShow: bool)

  /** A listed favorite with the record its xref resolves to ($favorite->record). */
  datatype ListedFavorite = ListedFavorite(favorite: Favorite, record: Option<GedcomRecord>)

  /** The primary key. */
  function FavoriteId(f: Favorite): int
  {
    f.favoriteId
  }

  /** WHERE gedcom_id = :tree_id AND user_id IS NULL */
  function IsTreeWide(tree: int): Favorite -> bool
  {
    (f: Favorite) => f.gedcomId == tree && f.userId.None?
  }

  /** WHERE gedcom_id = :gedcom_id AND user_id IS NULL AND url = :url */
  function HasUrl(tree: int, url: string): Favorite -> bool
  {
    (f: Favorite) => f.gedcomId == tree && f.userId.None? && f.url == Some(url)
  }

  /** WHERE gedcom_id = :gedcom_id AND user_id IS NULL AND xref = :xref */
  function HasXref(tree: int, xref: string): Favorite -> bool
  {
    (f: Favorite) => f.gedcomId == tree && f.userId.None? && f.xref == Some(xref)
  }

  /** The rows a DELETE ... WHERE favorite_id = :favorite_id AND gedcom_id = :tree_id keeps. */
  function IsKept(favoriteId: int, tree: int): Favorite -> bool
  {
    (f: Favorite) => !(f.favoriteId == favoriteId && f.gedcomId == tree)
  }

  /** PHP's truthiness of a string: '' and '0' are false. */
  predicate IsTruthy(s: string)
  {
    s != "" && s != "0"
  }

  /** The query of getFavorites: the tree's tree-wide favorites. */
  function TreeFavorites(rows: seq<Favorite>, tree: int): (r: seq<Favorite>)
    ensures forall k :: 0 <= k < |r| ==> r[k] in rows && r[k].gedcomId == tree && r[k].userId.None?
    ensures forall k :: 0 <= k < |rows| && rows[k].gedcomId == tree && rows[k].userId.None? ==> rows[k] in r
    ensures forall f :: multiset(r)[f] == if f.gedcomId == tree && f.userId.None? then multiset(rows)[f] else 0
  {
    FilterMultiset(rows, IsTreeWide(tree));
    Filter(rows, IsTreeWide(tree))
  }

  /** The record a listed favorite carries: a lookup of its xref, or null without one. */
  function RecordOf(f: Favorite, tree: int, getInstance: (string, int) -> Option<GedcomRecord>): Option<GedcomRecord>
  {
    if f.xref.Some? then getInstance(f.xref.value, tree) else None
  }

  /** UPDATE ... SET note = :note, title = :title WHERE favorite_id = :favorite_id */
  function WithNoteAndTitle(rows: seq<Favorite>, favoriteId: int, note: string, title: string): seq<Favorite>
  {
    seq(|rows|, k requires 0 <= k < |rows| =>
      if rows[k].favoriteId == favoriteId then rows[k].(note := Some(note), title := Some(title)) else rows[k])
  }

  /** UPDATE ... SET note = :note WHERE favorite_id = :favorite_id */
  function WithNote(rows: seq<Favorite>, favoriteId: int, note: string): seq<Favorite>
  {
    seq(|rows|, k requires 0 <= k < |rows| =>
      if rows[k].favoriteId == favoriteId then rows[k].(note := Some(note)) else rows[k])
  }

  /** The row addUrlFavorite inserts. */
  function NewUrlFavorite(favoriteId: int, tree: int, url: string, title: string, note: string): Favorite
  {
    Favorite(favoriteId, None, tree, None, "URL", Some(title), Some(note), Some(url))
  }

  /** The row addRecordFavorite inserts; its title is left NULL. */
  function NewRecordFavorite(favoriteId: int, tree: int, record: GedcomRecord, note: string): Favorite
  {
    Favorite(favoriteId, None, tree, Some(record.xref), record.recordType, None, Some(note), None)
  }

  /** The table after addUrlFavorite; `nextId` is the next auto-increment value. */
  function AddUrl(rows: seq<Favorite>, nextId: int, tree: int, url: string, title: string, note: string): (r: seq<Favorite>)
    ensures |r| == |rows| || |r| == |rows| + 1
    ensures |r| == |rows| + 1 <==> forall k :: 0 <= k < |rows| ==> !HasUrl(tree, url)(rows[k])
    ensures |r| == |rows| + 1 ==> r[..|rows|] == rows && r[|rows|] == NewUrlFavorite(nextId, tree, url, title, note)
    ensures forall k :: 0 <= k < |rows| ==>
              && r[k].favoriteId == rows[k].favoriteId && r[k].userId == rows[k].userId && r[k].gedcomId == rows[k].gedcomId
              && r[k].xref == rows[k].xref && r[k].favoriteType == rows[k].favoriteType && r[k].url == rows[k].url
  {
    match FirstMatch(rows, HasUrl(tree, url))
    case None => rows + [NewUrlFavorite(nextId, tree, url, title, note)]
    case Some(i) => WithNoteAndTitle(rows, rows[i].favoriteId, note, title)
  }

  /** The table after addRecordFavorite. */
  function AddRecord(rows: seq<Favorite>, nextId: int, tree: int, record: GedcomRecord, note: string): (r: seq<Favorite>)
    ensures |r| == |rows| || |r| == |rows| + 1
    ensures |r| == |rows| + 1 <==> forall k :: 0 <= k < |rows| ==> !HasXref(tree, record.xref)(rows[k])
    ensures |r| == |rows| + 1 ==> r[..|rows|] == rows && r[|rows|] == NewRecordFavorite(nextId, tree, record, note)
    ensures forall k :: 0 <= k < |rows| ==>
              && r[k].favoriteId == rows[k].favoriteId && r[k].userId == rows[k].userId && r[k].gedcomId == rows[k].gedcomId
              && r[k].xref == rows[k].xref && r[k].favoriteType == rows[k].favoriteType && r[k].url == rows[k].url
              && r[k].title == rows[k].title
  {
    match FirstMatch(rows, HasXref(tree, record.xref))
    case None => rows + [NewRecordFavorite(nextId, tree, record, note)]
    case Some(i) => WithNote(rows, rows[i].favoriteId, note)
  }

  /** The table after the DELETE of postDeleteFavoriteAction. */
  function DeleteFavorite(rows: seq<Favorite>, favoriteId: int, tree: int): (r: seq<Favorite>)
    ensures |r| <= |rows|
    ensures forall k :: 0 <= k < |r| ==> r[k] in rows && !(r[k].favoriteId == favoriteId && r[k].gedcomId == tree)
    ensures forall k :: 0 <= k < |rows| && !(rows[k].favoriteId == favoriteId && rows[k].gedcomId == tree) ==> rows[k] in r
  {
    Filter(rows, IsKept(favoriteId, tree))
  }

  /** With no tree-wide row for the url, exactly one row of type 'URL' is appended. */
  lemma AddUrlInsertsWhenAbsent(rows: seq<Favorite>, nextId: int, tree: int, url: string, title: string, note: string)
    requires forall k :: 0 <= k < |rows| ==> !HasUrl(tree, url)(rows[k])
    ensures var r := AddUrl(rows, nextId, tree, url, title, note);
            && |r| == |rows| + 1 && r[..|rows|] == rows
            && r[|rows|] == NewUrlFavorite(nextId, tree, url, title, note)
            && r[|rows|].favoriteType == "URL" && r[|rows|].gedcomId == tree && r[|rows|].userId.None?
  {
    var r := AddUrl(rows, nextId, tree, url, title, note);
    assert r == rows + [NewUrlFavorite(nextId, tree, url, title, note)];
  }

  /**
    With a tree-wide row for the url, the first one (row `i`) gets the new note
    and title, and every other row is unchanged.
   */
  lemma AddUrlUpdatesMatch(rows: seq<Favorite>, nextId: int, tree: int, url: string, title: string, note: string, i: nat)
    requires UniqueKeys(rows, FavoriteId)
    requires i < |rows| && HasUrl(tree, url)(rows[i])
    requires forall j :: 0 <= j < i ==> !HasUrl(tree, url)(rows[j])
    ensures var r := AddUrl(rows, nextId, tree, url, title, note);
            && |r| == |rows|
            && r[i] == rows[i].(note := Some(note), title := Some(title))
            && forall k :: 0 <= k < |rows| && k != i ==> r[k] == rows[k]
  {
    var m := FirstMatch(rows, HasUrl(tree, url));
    assert m == Some(i);
    forall k | 0 <= k < |rows| && k != i
      ensures rows[k].favoriteId != rows[i].favoriteId
    {
      assert FavoriteId(rows[k]) != FavoriteId(rows[i]);
    }
  }

  /** addUrlFavorite keeps favorite_id a primary key and consumes an id only when it inserts. */
  lemma AddUrlKeepsKeys(rows: seq<Favorite>, nextId: int, tree: int, url: string, title: string, note: string)
    requires UniqueKeys(rows, FavoriteId) && KeysBelow(rows, FavoriteId, nextId)
    ensures var r := AddUrl(rows, nextId, tree, url, title, note);
            && (|r| == |rows| || |r| == |rows| + 1)
            && UniqueKeys(r, FavoriteId)
            && KeysBelow(r, FavoriteId, nextId + |r| - |rows|)
  {
    var r := AddUrl(rows, nextId, tree, url, title, note);
    match FirstMatch(rows, HasUrl(tree, url))
    case None =>
      AppendFreshKeepsKeys(rows, NewUrlFavorite(nextId, tree, url, title, note), nextId);
    case Some(i) =>
      assert forall k :: 0 <= k < |r| ==> FavoriteId(r[k]) == FavoriteId(rows[k]);
  }

  /** Appending a row with the next auto-increment id keeps the key unique. */
  lemma AppendFreshKeepsKeys(rows: seq<Favorite>, f: Favorite, nextId: int)
    requires UniqueKeys(rows, FavoriteId) && KeysBelow(rows, FavoriteId, nextId)
    requires f.favoriteId == nextId
    ensures UniqueKeys(rows + [f], FavoriteId) && KeysBelow(rows + [f], FavoriteId, nextId + 1)
  {
    var r := rows + [f];
    forall i, j | 0 <= i < j < |r| ensures FavoriteId(r[i]) != FavoriteId(r[j]) {
      if j == |rows| {
        assert FavoriteId(r[i]) == FavoriteId(rows[i]) < nextId;
      } else {
        assert r[i] == rows[i] && r[j] == rows[j];
      }
    }
  }

  /**
    Upsert uniqueness: when the tree holds at most one tree-wide row for the
    url, afterwards it holds exactly one, carrying the new note and title.
   */
  lemma {:induction false} AddUrlLeavesOneRow(rows: seq<Favorite>, nextId: int, tree: int, url: string, title: string, note: string)
    requires UniqueKeys(rows, FavoriteId)
    requires |Filter(rows, HasUrl(tree, url))| <= 1
    ensures var matches := Filter(AddUrl(rows, nextId, tree, url, title, note), HasUrl(tree, url));
            |matches| == 1 && matches[0].note == Some(note) && matches[0].title == Some(title)
  {
    var p := HasUrl(tree, url);
    var r := AddUrl(rows, nextId, tree, url, title, note);
    match FirstMatch(rows, p)
    case None =>
      FilterEmpty(rows, p);
      FilterAppend(rows, NewUrlFavorite(nextId, tree, url, title, note), p);
    case Some(i) =>
      AddUrlUpdatesMatch(rows, nextId, tree, url, title, note, i);
      forall k | 0 <= k < |r| && k != i ensures !p(r[k]) {
        if p(rows[k]) {
          FilterAtMostOne(rows, p, i, k);
        }
      }
      FilterSingle(r, p, i);
  }

  /**
    Adding the same url twice leaves one tree-wide row for it, carrying the
    second call's note and title, and the second call inserts nothing.
   */
  lemma {:induction false} AddUrlTwice(rows: seq<Favorite>, nextId: int, tree: int, url: string,
                                       title1: string, note1: string, title2: string, note2: string)
    requires UniqueKeys(rows, FavoriteId) && KeysBelow(rows, FavoriteId, nextId)
    requires |Filter(rows, HasUrl(tree, url))| <= 1
    ensures var r1 := AddUrl(rows, nextId, tree, url, title1, note1);
            var r2 := AddUrl(r1, nextId + |r1| - |rows|, tree, url, title2, note2);
            var matches := Filter(r2, HasUrl(tree, url));
            && |r2| == |r1|
            && |matches| == 1 && matches[0].note == Some(note2) && matches[0].title == Some(title2)
  {
    var p := HasUrl(tree, url);
    var r1 := AddUrl(rows, nextId, tree, url, title1, note1);
    AddUrlKeepsKeys(rows, nextId, tree, url, title1, note1);
    AddUrlLeavesOneRow(rows, nextId, tree, url, title1, note1);
    FirstMatchIsFirstFiltered(r1, p);
    AddUrlLeavesOneRow(r1, nextId + |r1| - |rows|, tree, url, title2, note2);
  }

  /** With no tree-wide row for the record's xref, one row of the record's type is appended. */
  lemma AddRecordInsertsWhenAbsent(rows: seq<Favorite>, nextId: int, tree: int, record: GedcomRecord, note: string)
    requires forall k :: 0 <= k < |rows| ==> !HasXref(tree, record.xref)(rows[k])
    ensures var r := AddRecord(rows, nextId, tree, record, note);
            && |r| == |rows| + 1 && r[..|rows|] == rows
            && r[|rows|] == NewRecordFavorite(nextId, tree, record, note)
            && r[|rows|].favoriteType == record.recordType && r[|rows|].xref == Some(record.xref)
  {
    var r := AddRecord(rows, nextId, tree, record, note);
    assert r == rows + [NewRecordFavorite(nextId, tree, record, note)];
  }

  /** With a tree-wide row for the xref, only the first one's note changes. */
  lemma AddRecordUpdatesMatch(rows: seq<Favorite>, nextId: int, tree: int, record: GedcomRecord, note: string, i: nat)
    requires UniqueKeys(rows, FavoriteId)
    requires i < |rows| && HasXref(tree, record.xref)(rows[i])
    requires forall j :: 0 <= j < i ==> !HasXref(tree, record.xref)(rows[j])
    ensures var r := AddRecord(rows, nextId, tree, record, note);
            && |r| == |rows|
            && r[i] == rows[i].(note := Some(note))
            && forall k :: 0 <= k < |rows| && k != i ==> r[k] == rows[k]
  {
    var m := FirstMatch(rows, HasXref(tree, record.xref));
    assert m == Some(i);
    forall k | 0 <= k < |rows| && k != i
      ensures rows[k].favoriteId != rows[i].favoriteId
    {
      assert FavoriteId(rows[k]) != FavoriteId(rows[i]);
    }
  }

  /** addRecordFavorite keeps favorite_id a primary key and consumes an id only when it inserts. */
  lemma AddRecordKeepsKeys(rows: seq<Favorite>, nextId: int, tree: int, record: GedcomRecord, note: string)
    requires UniqueKeys(rows, FavoriteId) && KeysBelow(rows, FavoriteId, nextId)
    ensures var r := AddRecord(rows, nextId, tree, record, note);
            && (|r| == |rows| || |r| == |rows| + 1)
            && UniqueKeys(r, FavoriteId)
            && KeysBelow(r, FavoriteId, nextId + |r| - |rows|)
  {
    var r := AddRecord(rows, nextId, tree, record, note);
    match FirstMatch(rows, HasXref(tree, record.xref))
    case None =>
      AppendFreshKeepsKeys(rows, NewRecordFavorite(nextId, tree, record, note), nextId);
    case Some(i) =>
      assert forall k :: 0 <= k < |r| ==> FavoriteId(r[k]) == FavoriteId(rows[k]);
  }

  /**
    Upsert uniqueness for records: at most one tree-wide row for the xref
    before means exactly one after, carrying the new note.
   */
  lemma {:induction false} AddRecordLeavesOneRow(rows: seq<Favorite>, nextId: int, tree: int, record: GedcomRecord, note: string)
    requires UniqueKeys(rows, FavoriteId)
    requires |Filter(rows, HasXref(tree, record.xref))| <= 1
    ensures var matches := Filter(AddRecord(rows, nextId, tree, record, note), HasXref(tree, record.xref));
            |matches| == 1 && matches[0].note == Some(note)
  {
    var p := HasXref(tree, record.xref);
    var r := AddRecord(rows, nextId, tree, record, note);
    match FirstMatch(rows, p)
    case None =>
      FilterEmpty(rows, p);
      FilterAppend(rows, NewRecordFavorite(nextId, tree, record, note), p);
    case Some(i) =>
      AddRecordUpdatesMatch(rows, nextId, tree, record, note, i);
      forall k | 0 <= k < |r| && k != i ensures !p(r[k]) {
        if p(rows[k]) {
          FilterAtMostOne(rows, p, i, k);
        }
      }
      FilterSingle(r, p, i);
  }

  /**
    Delete is scoped to the tree: a row goes exactly when both its id and its
    tree match, so the same id in another tree survives; the key stays unique,
    and deleting again changes nothing.
   */
  lemma DeleteFavoriteScoped(rows: seq<Favorite>, favoriteId: int, tree: int)
    requires UniqueKeys(rows, FavoriteId)
    ensures var r := DeleteFavorite(rows, favoriteId, tree);
            && (forall k :: 0 <= k < |rows| && rows[k].gedcomId != tree ==> rows[k] in r)
            && (forall k :: 0 <= k < |rows| && rows[k].favoriteId != favoriteId ==> rows[k] in r)
            && (forall k :: 0 <= k < |r| ==> r[k] in rows && !(r[k].favoriteId == favoriteId && r[k].gedcomId == tree))
            && UniqueKeys(r, FavoriteId)
            && DeleteFavorite(r, favoriteId, tree) == r
  {
    FilterKeepsUniqueKeys(rows, IsKept(favoriteId, tree), FavoriteId);
    FilterIdempotent(rows, IsKept(favoriteId, tree));
  }

  /**
    Upsert uniqueness as a table invariant: each tree holds at most one
    tree-wide favorite per url and at most one per xref.
   */
  ghost predicate OneRowPerTarget(rows: seq<Favorite>)
  {
    && (forall tree, url :: |Filter(rows, HasUrl(tree, url))| <= 1)
    && (forall tree, xref :: |Filter(rows, HasXref(tree, xref))| <= 1)
  }

  /** Two tables whose rows agree, index by index, on tree, user, url and xref. */
  ghost predicate SameTargets(s: seq<Favorite>, t: seq<Favorite>)
  {
    && |s| == |t|
    && forall k :: 0 <= k < |s| ==>
         s[k].gedcomId == t[k].gedcomId && s[k].userId == t[k].userId && s[k].url == t[k].url && s[k].xref == t[k].xref
  }

  /** Changing only notes and titles keeps the invariant. */
  lemma SameTargetsKeepOneRow(s: seq<Favorite>, t: seq<Favorite>)
    requires SameTargets(s, t) && OneRowPerTarget(s)
    ensures OneRowPerTarget(t)
  {
    forall tree, url ensures |Filter(t, HasUrl(tree, url))| <= 1 {
      FilterSameCount(s, t, HasUrl(tree, url));
    }
    forall tree, xref ensures |Filter(t, HasXref(tree, xref))| <= 1 {
      FilterSameCount(s, t, HasXref(tree, xref));
    }
  }

  /** addUrlFavorite keeps at most one tree-wide favorite per url and per xref in every tree. */
  lemma AddUrlKeepsOneRowPerTarget(rows: seq<Favorite>, nextId: int, tree: int, url: string, title: string, note: string)
    requires UniqueKeys(rows, FavoriteId) && OneRowPerTarget(rows)
    ensures OneRowPerTarget(AddUrl(rows, nextId, tree, url, title, note))
  {
    var r := AddUrl(rows, nextId, tree, url, title, note);
    match FirstMatch(rows, HasUrl(tree, url))
    case None =>
      var f := NewUrlFavorite(nextId, tree, url, title, note);
      forall t, u ensures |Filter(r, HasUrl(t, u))| <= 1 {
        FilterAppend(rows, f, HasUrl(t, u));
        if t == tree && u == url {
          AddUrlLeavesOneRow(rows, nextId, tree, url, title, note);
        }
      }
      forall t, x ensures |Filter(r, HasXref(t, x))| <= 1 {
        FilterAppend(rows, f, HasXref(t, x));
      }
    case Some(i) =>
      SameTargetsKeepOneRow(rows, r);
  }

  /** addRecordFavorite keeps at most one tree-wide favorite per url and per xref in every tree. */
  lemma AddRecordKeepsOneRowPerTarget(rows: seq<Favorite>, nextId: int, tree: int, record: GedcomRecord, note: string)
    requires UniqueKeys(rows, FavoriteId) && OneRowPerTarget(rows)
    ensures OneRowPerTarget(AddRecord(rows, nextId, tree, record, note))
  {
    var r := AddRecord(rows, nextId, tree, record, note);
    match FirstMatch(rows, HasXref(tree, record.xref))
    case None =>
      var f := NewRecordFavorite(nextId, tree, record, note);
      forall t, u ensures |Filter(r, HasUrl(t, u))| <= 1 {
        FilterAppend(rows, f, HasUrl(t, u));
      }
      forall t, x ensures |Filter(r, HasXref(t, x))| <= 1 {
        FilterAppend(rows, f, HasXref(t, x));
        if t == tree && x == record.xref {
          AddRecordLeavesOneRow(rows, nextId, tree, record, note);
        }
      }
    case Some(i) =>
      SameTargetsKeepOneRow(rows, r);
  }

  /** Deleting a favorite keeps at most one tree-wide favorite per url and per xref in every tree. */
  lemma DeleteFavoriteKeepsOneRowPerTarget(rows: seq<Favorite>, favoriteId: int, tree: int)
    requires OneRowPerTarget(rows)
    ensures OneRowPerTarget(DeleteFavorite(rows, favoriteId, tree))
  {
    forall t, u ensures |Filter(DeleteFavorite(rows, favoriteId, tree), HasUrl(t, u))| <= 1 {
      FilterNarrows(rows, IsKept(favoriteId, tree), HasUrl(t, u));
    }
    forall t, x ensures |Filter(DeleteFavorite(rows, favoriteId, tree), HasXref(t, x))| <= 1 {
      FilterNarrows(rows, IsKept(favoriteId, tree), HasXref(t, x));
    }
  }

  /** The favorite table of the site, with the favorites block's actions on it. */
  class FamilyTreeFavoritesModule {
    var rows: seq<Favorite>
    /** The next value of the table's auto-increment counter. */
    var nextId: int

    ghost predicate Valid()
      reads this
    {
      UniqueKeys(rows, FavoriteId) && KeysBelow(rows, FavoriteId, nextId) && OneRowPerTarget(rows)
    }

    constructor ()
      ensures Valid() && rows == []
    {
      rows := [];
      nextId := 1;
    }

    /**
      getFavorites: the tree's tree-wide favorites, each given the record its
      xref resolves to, or no record when it has no xref.
     */
    method GetFavorites(tree: int, getInstance: (string, int) -> Option<GedcomRecord>) returns (favorites: seq<ListedFavorite>)
      ensures |favorites| == |TreeFavorites(rows, tree)|
      ensures forall k :: 0 <= k < |favorites| ==> favorites[k].favorite == TreeFavorites(rows, tree)[k]
      ensures forall k :: 0 <= k < |favorites| ==>
                (favorites[k].favorite.xref.Some? ==>
                   favorites[k].record == getInstance(favorites[k].favorite.xref.value, tree))
      ensures forall k :: 0 <= k < |favorites| ==> (favorites[k].favorite.xref.None? ==> favorites[k].record.None?)
    {
      var fetched := TreeFavorites(rows, tree);
      favorites := [];
      var i := 0;
      while i < |fetched|
        invariant 0 <= i <= |fetched|
        invariant |favorites| == i
        invariant forall k :: 0 <= k < i ==> favorites[k] == ListedFavorite(fetched[k], RecordOf(fetched[k], tree, getInstance))
      {
        var favorite := fetched[i];
        var record := if favorite.xref != None then getInstance(favorite.xref.value, tree) else None;
        favorites := favorites + [ListedFavorite(favorite, record)];
        i := i + 1;
      }
    }

    /** addUrlFavorite: upsert the tree-wide favorite for `url`. */
    method AddUrlFavorite(tree: int, url: string, title: string, note: string)
      requires Valid()
      modifies this
      ensures Valid()
      ensures rows == AddUrl(old(rows), old(nextId), tree, url, title, note)
      ensures nextId == old(nextId) + |rows| - |old(rows)|
      ensures var matches := Filter(rows, HasUrl(tree, url));
              |matches| == 1 && matches[0].note == Some(note) && matches[0].title == Some(title)
    {
      AddUrlKeepsKeys(rows, nextId, tree, url, title, note);
      AddUrlKeepsOneRowPerTarget(rows, nextId, tree, url, title, note);
      AddUrlLeavesOneRow(rows, nextId, tree, url, title, note);
      var favorite := FirstMatch(rows, HasUrl(tree, url));
      if favorite == None {
        rows := rows + [NewUrlFavorite(nextId, tree, url, title, note)];
        nextId := nextId + 1;
      } else {
        rows := WithNoteAndTitle(rows, rows[favorite.value].favoriteId, note, title);
      }
    }

    /** addRecordFavorite: upsert the tree-wide favorite for `record`. */
    method AddRecordFavorite(tree: int, record: GedcomRecord, note: string)
      requires Valid()
      modifies this
      ensures Valid()
      ensures rows == AddRecord(old(rows), old(nextId), tree, record, note)
      ensures nextId == old(nextId) + |rows| - |old(rows)|
      ensures var matches := Filter(rows, HasXref(tree, record.xref));
              |matches| == 1 && matches[0].note == Some(note)
    {
      AddRecordKeepsKeys(rows, nextId, tree, record, note);
      AddRecordKeepsOneRowPerTarget(rows, nextId, tree, record, note);
      AddRecordLeavesOneRow(rows, nextId, tree, record, note);
      var favorite := FirstMatch(rows, HasXref(tree, record.xref));
      if favorite == None {
        rows := rows + [NewRecordFavorite(nextId, tree, record, note)];
        nextId := nextId + 1;
      } else {
        rows := WithNote(rows, rows[favorite.value].favoriteId, note);
      }
    }

    /**
      postAddFavoriteAction. The request fields default to ''; `isManager` is
      Auth::isManager for the tree and user, and `getInstance` the record lookup.
      A non-manager changes nothing; a url favorite needs a non-empty url and
      takes the url as title when the title is PHP-falsy; a record favorite
      needs a record that exists and can be shown.
     */
    method PostAddFavoriteAction(tree: int, isManager: bool, getInstance: (string, int) -> Option<GedcomRecord>,
                                 note: string, title: string, url: string, xref: string, favCategory: string)
      requires Valid()
      modifies this
      ensures Valid()
      ensures nextId == old(nextId) + |rows| - |old(rows)|
      ensures !isManager ==> rows == old(rows)
      ensures isManager && favCategory == "url" && url != "" ==>
                rows == AddUrl(old(rows), old(nextId), tree, url, if IsTruthy(title) then title else url, note)
      ensures isManager && favCategory == "record" && getInstance(xref, tree).Some? && getInstance(xref, tree).value.canShow ==>
                rows == AddRecord(old(rows), old(nextId), tree, getInstance(xref, tree).value, note)
      ensures !(favCategory == "url" && url != "") &&
              !(favCategory == "record" && getInstance(xref, tree).Some? && getInstance(xref, tree).value.canShow) ==>
                rows == old(rows)
    {
      var record := getInstance(xref, tree);
      if isManager {
        if favCategory == "url" && url != "" {
          AddUrlFavorite(tree, url, if IsTruthy(title) then title else url, note);
        }
        if favCategory == "record" && record.Some? && record.value.canShow {
          AddRecordFavorite(tree, record.value, note);
        }
      }
    }

    /** postDeleteFavoriteAction: a manager deletes the favorite with that id in this tree. */
    method PostDeleteFavoriteAction(tree: int, isManager: bool, favoriteId: int)
      requires Valid()
      modifies this
      ensures Valid() && nextId == old(nextId)
      ensures !isManager ==> rows == old(rows)
      ensures isManager ==> rows == DeleteFavorite(old(rows), favoriteId, tree)
    {
      if isManager {
        DeleteFavoriteScoped(rows, favoriteId, tree);
        DeleteFavoriteKeepsOneRowPerTarget(rows, favoriteId, tree);
        FilterKeepsUniqueKeys(rows, IsKept(favoriteId, tree), FavoriteId);
        rows := DeleteFavorite(rows, favoriteId, tree);
      }
    }
  }
}
