/** The `Bookmark` repository over the `bookmarks` table, whose rows are
    (user, flashcard) pairs, unique per pair, both ends foreign keys. */
module BookmarkModel {
  import opened JsValues
  import opened Tables

  /** `getUserBookmarks`: the flashcard ids the user has bookmarked. */
  function GetUserBookmarks(marks: set<Bookmark>, userId: string): (ids: set<string>)
    ensures forall f :: f in ids <==> Bookmark(userId, f) in marks
  {
    set b | b in marks && b.userId == userId :: b.flashcardId
  }

  /** Every other user's bookmarks. */
  function OtherUsers(marks: set<Bookmark>, userId: string): (r: set<Bookmark>)
    ensures forall b :: b in r <==> b in marks && b.userId != userId
  {
    set b | b in marks && b.userId != userId
  }

  /** The rows for `userId` and each listed flashcard. */
  function MarksOf(userId: string, ids: seq<string>): (r: set<Bookmark>)
    ensures forall b :: b in r <==> b.userId == userId && b.flashcardId in ids
  {
    set f | f in ids :: Bookmark(userId, f)
  }

  /** `addBookmark` (INSERT OR IGNORE): an existing pair is left alone;
      otherwise the pair is added, unless the user or the flashcard does not
      exist, which the IGNORE does not cover (it only covers UNIQUE). */
  method AddBookmark(db: Database, userId: string, flashcardId: string) returns (r: Result<(), SqlError>)
    requires db.Valid()
    modifies db`bookmarks
    ensures db.Valid()
    ensures Bookmark(userId, flashcardId) in old(db.bookmarks) ==> r == Ok(()) && db.bookmarks == old(db.bookmarks)
    ensures Bookmark(userId, flashcardId) !in old(db.bookmarks) ==>
      if userId in UserIds(db.users) && flashcardId in FlashcardIds(db.flashcards) then
        r == Ok(()) && db.bookmarks == old(db.bookmarks) + {Bookmark(userId, flashcardId)}
      else
        r == Err(ForeignKeyFailed) && db.bookmarks == old(db.bookmarks)
    ensures r.Ok? ==> flashcardId in GetUserBookmarks(db.bookmarks, userId)
  {
    var b := Bookmark(userId, flashcardId);
    if b in db.bookmarks {
      return Ok(());
    }
    if userId !in UserIds(db.users) || flashcardId !in FlashcardIds(db.flashcards) {
      return Err(ForeignKeyFailed);
    }
    db.bookmarks := db.bookmarks + {b};
    r := Ok(());
  }

  /** `removeBookmark`: deletes that pair only; an absent pair changes nothing. */
  method RemoveBookmark(db: Database, userId: string, flashcardId: string)
    requires db.Valid()
    modifies db`bookmarks
    ensures db.Valid()
    ensures db.bookmarks == old(db.bookmarks) - {Bookmark(userId, flashcardId)}
    ensures flashcardId !in GetUserBookmarks(db.bookmarks, userId)
  {
    db.bookmarks := db.bookmarks - {Bookmark(userId, flashcardId)};
  }

  /** Why the plain INSERT of the `j`-th listed id fails, if it does, once
      the user's rows are deleted and the ids before it are inserted: a
      repeat of an earlier id breaks UNIQUE, and an unknown user or
      flashcard breaks a foreign key. */
  function InsertError(userId: string, ids: seq<string>, j: nat, users: seq<UserRow>, flashcards: seq<FlashcardRow>): Option<SqlError>
    requires j < |ids|
  {
    if ids[j] in ids[..j] then Some(UniqueFailed("bookmarks.user_id, bookmarks.flashcard_id"))
    else if userId !in UserIds(users) || ids[j] !in FlashcardIds(flashcards) then Some(ForeignKeyFailed)
    else None
  }

  /** How many of the listed ids, from position `j` on, are inserted before
      the first failing insert (all of them when none fails). */
  function Accepted(userId: string, ids: seq<string>, j: nat, users: seq<UserRow>, flashcards: seq<FlashcardRow>): (n: nat)
    requires j <= |ids|
    ensures j <= n <= |ids|
    ensures forall k :: j <= k < n ==> InsertError(userId, ids, k, users, flashcards).None?
    ensures n < |ids| ==> InsertError(userId, ids, n, users, flashcards).Some?
    decreases |ids| - j
  {
    if j == |ids| || InsertError(userId, ids, j, users, flashcards).Some? then j
    else Accepted(userId, ids, j + 1, users, flashcards)
  }

  /** `updateUserBookmarks`: deletes all of the user's bookmarks, then, for a
      non-empty list, inserts one row per listed id in order. There is no
      transaction: an insert that fails stops the loop with the error, and
      the delete and the inserts before it stay done. */
  method UpdateUserBookmarks(db: Database, userId: string, ids: Option<seq<string>>) returns (r: Result<(), SqlError>)
    requires db.Valid()
    modifies db`bookmarks
    ensures db.Valid()
    ensures ids.None? || ids.value == [] ==>
      r == Ok(()) && db.bookmarks == OtherUsers(old(db.bookmarks), userId)
    ensures ids.Some? && ids.value != [] ==>
      var n := Accepted(userId, ids.value, 0, db.users, db.flashcards);
      && db.bookmarks == OtherUsers(old(db.bookmarks), userId) + MarksOf(userId, ids.value[..n])
      && (n == |ids.value| ==> r == Ok(()))
      && (n < |ids.value| ==> r == Err(InsertError(userId, ids.value, n, db.users, db.flashcards).value))
  {
    db.bookmarks := OtherUsers(db.bookmarks, userId);
    ghost var kept := db.bookmarks;
    assert BookmarksValid(db.bookmarks, db.users, db.flashcards);
    if ids.Some? && |ids.value| > 0 {
      var list := ids.value;
      ghost var n := Accepted(userId, list, 0, db.users, db.flashcards);
      var j := 0;
      while j < |list|
        invariant 0 <= j <= n
        invariant db.bookmarks == kept + MarksOf(userId, list[..j])
        invariant db.Valid()
      {
        var b := Bookmark(userId, list[j]);
        if b in db.bookmarks {
          assert list[j] in list[..j];
          assert InsertError(userId, list, j, db.users, db.flashcards).Some?;
          assert j == n;
          return Err(UniqueFailed("bookmarks.user_id, bookmarks.flashcard_id"));
        }
        assert list[j] !in list[..j];
        if userId !in UserIds(db.users) || list[j] !in FlashcardIds(db.flashcards) {
          assert InsertError(userId, list, j, db.users, db.flashcards).Some?;
          assert j == n;
          return Err(ForeignKeyFailed);
        }
        assert j < n;
        db.bookmarks := db.bookmarks + {b};
        assert BookmarksValid(db.bookmarks, db.users, db.flashcards);
        assert list[..j + 1] == list[..j] + [list[j]];
        assert MarksOf(userId, list[..j + 1]) == MarksOf(userId, list[..j]) + {b};
        j := j + 1;
      }
      assert list[..j] == list;
    }
    r := Ok(());
  }

  /** With no repeated id, an existing user and existing flashcards, the
      replacement succeeds: the user's bookmarks become exactly the listed
      ids and every other user's bookmarks stay as they were. */
  lemma ReplaceAll(marks: set<Bookmark>, userId: string, ids: seq<string>, users: seq<UserRow>, flashcards: seq<FlashcardRow>, other: string)
    requires Distinct(ids) && userId in UserIds(users)
    requires forall f :: f in ids ==> f in FlashcardIds(flashcards)
    requires other != userId
    ensures Accepted(userId, ids, 0, users, flashcards) == |ids|
    ensures var after := OtherUsers(marks, userId) + MarksOf(userId, ids);
      && (forall f :: f in GetUserBookmarks(after, userId) <==> f in ids)
      && GetUserBookmarks(after, other) == GetUserBookmarks(marks, other)
  {
    forall j | 0 <= j < |ids| ensures InsertError(userId, ids, j, users, flashcards).None? {
      assert ids[j] in ids;
      assert ids[j] !in ids[..j] by {
        forall k | 0 <= k < j ensures ids[..j][k] != ids[j] {
          assert ids[k] != ids[j];
        }
      }
    }
    assert ids[..|ids|] == ids;
  }

  /** A list that repeats an id cannot be stored: the replacement stops with
      an error at the latest on the repeat, after the user's old bookmarks
      are already gone. */
  lemma RepeatFails(userId: string, ids: seq<string>, i: nat, k: nat, users: seq<UserRow>, flashcards: seq<FlashcardRow>)
    requires i < k < |ids| && ids[i] == ids[k]
    ensures Accepted(userId, ids, 0, users, flashcards) <= k < |ids|
  {
    assert ids[..k][i] == ids[k];
    assert InsertError(userId, ids, k, users, flashcards).Some?;
  }
}
