/** The `User` repository over the `users` table (id primary key, email
    UNIQUE), its paginated listing, and the profile that gathers a user's
    badges, bookmarks and streak. */
module UserModel {
  import opened JsValues
  import opened Tables
  import Paging
  import BadgeModel
  import BookmarkModel
  import StreakModel

  /** `SELECT * FROM users WHERE id = ?`. */
  function GetById(users: seq<UserRow>, id: string): (r: Option<UserRow>)
    ensures r.Some? <==> id in UserIds(users)
    ensures r.Some? ==> r.value in users && r.value.id == id
  {
    if |users| == 0 then None
    else if users[0].id == id then Some(users[0])
    else GetById(users[1..], id)
  }

  /** `SELECT * FROM users WHERE email = ?`. */
  function GetByEmail(users: seq<UserRow>, email: string): (r: Option<UserRow>)
    ensures r.Some? <==> email in UserEmails(users)
    ensures r.Some? ==> r.value in users && r.value.email == email
  {
    if |users| == 0 then None
    else if users[0].email == email then Some(users[0])
    else GetByEmail(users[1..], email)
  }

  /** With distinct ids and emails, a user is the row found under its id and under its email. */
  lemma FindsExactly(users: seq<UserRow>, u: UserRow)
    requires UsersValid(users) && u in users
    ensures GetById(users, u.id) == Some(u)
    ensures GetByEmail(users, u.email) == Some(u)
  {
    var k :| 0 <= k < |users| && users[k] == u;
    var x := GetById(users, u.id).value;
    var i :| 0 <= i < |users| && users[i] == x;
    assert UserIds(users)[i] == UserIds(users)[k];
    var y := GetByEmail(users, u.email).value;
    var j :| 0 <= j < |users| && users[j] == y;
    assert UserEmails(users)[j] == UserEmails(users)[k];
  }

  /** The row `User.create` binds, or the NOT NULL column it breaks (checked
      in schema order: name, email, password). `avatar` defaults to null. */
  function NewRow(id: string, name: JsValue, email: JsValue, password: JsValue, avatar: JsValue): (r: Result<UserRow, SqlError>)
    ensures r.Ok? <==> ToText(name).Some? && ToText(email).Some? && ToText(password).Some?
    ensures r.Ok? ==> r.value == UserRow(id, ToText(name).value, ToText(email).value, ToText(password).value, ToText(avatar))
    ensures ToText(name).None? ==> r == Err(NotNullFailed("users.name"))
    ensures ToText(name).Some? && ToText(email).None? ==> r == Err(NotNullFailed("users.email"))
  {
    match (ToText(name), ToText(email), ToText(password))
    case (None, _, _) => Err(NotNullFailed("users.name"))
    case (_, None, _) => Err(NotNullFailed("users.email"))
    case (_, _, None) => Err(NotNullFailed("users.password"))
    case (Some(n), Some(e), Some(p)) => Ok(UserRow(id, n, e, p, ToText(avatar)))
  }

  /** `User.create`: inserts the row and returns it read back. After the
      NOT NULL checks, an email in use fails on UNIQUE and then an id in use
      fails on the primary key (SQLite checks the table's unique indexes
      latest-declared first, and the email's index is declared after the
      key's); a failed insert writes nothing. */
  method Create(db: Database, id: string, name: JsValue, email: JsValue, password: JsValue, avatar: JsValue)
    returns (r: Result<UserRow, SqlError>)
    requires db.Valid()
    modifies db`users
    ensures db.Valid()
    ensures match NewRow(id, name, email, password, avatar)
      case Err(e) => r == Err(e) && db.users == old(db.users)
      case Ok(row) =>
        if row.email in UserEmails(old(db.users)) then r == Err(UniqueFailed("users.email")) && db.users == old(db.users)
        else if id in UserIds(old(db.users)) then r == Err(UniqueFailed("users.id")) && db.users == old(db.users)
        else r == Ok(row) && db.users == old(db.users) + [row]
    ensures r.Ok? ==> GetById(db.users, id) == Some(r.value) && GetByEmail(db.users, r.value.email) == Some(r.value)
  {
    var made := NewRow(id, name, email, password, avatar);
    if made.Err? {
      return Err(made.error);
    }
    var row := made.value;
    if row.email in UserEmails(db.users) {
      return Err(UniqueFailed("users.email"));
    }
    if id in UserIds(db.users) {
      return Err(UniqueFailed("users.id"));
    }
    ghost var before := db.users;
    db.users := db.users + [row];
    assert UserIds(db.users) == UserIds(before) + [id];
    assert UserEmails(db.users) == UserEmails(before) + [row.email];
    assert UsersValid(db.users);
    FindsExactly(db.users, row);
    r := Ok(row);
  }

  /** An email can go on user `id` when no other user has it. */
  predicate EmailFree(users: seq<UserRow>, id: string, email: string)
  {
    forall u :: u in users && u.email == email ==> u.id == id
  }

  /** The users with the row under `row.id` replaced by `row`. */
  function Overwrite(users: seq<UserRow>, row: UserRow): (r: seq<UserRow>)
    ensures |r| == |users| && UserIds(r) == UserIds(users)
    ensures forall i :: 0 <= i < |users| ==> r[i] == if users[i].id == row.id then row else users[i]
  {
    seq(|users|, i requires 0 <= i < |users| => if users[i].id == row.id then row else users[i])
  }

  /** Overwriting a user with an email no other user has keeps the table
      valid; the id then finds the new row and every other id what it found. */
  lemma OverwriteValid(users: seq<UserRow>, row: UserRow, other: string)
    requires UsersValid(users) && row.id in UserIds(users) && EmailFree(users, row.id, row.email)
    ensures UsersValid(Overwrite(users, row))
    ensures GetById(Overwrite(users, row), row.id) == Some(row)
    ensures other != row.id ==> GetById(Overwrite(users, row), other) == GetById(users, other)
  {
    var after := Overwrite(users, row);
    var k :| 0 <= k < |users| && UserIds(users)[k] == row.id;
    forall i, j | 0 <= i < j < |after| ensures after[i].email != after[j].email {
      assert UserIds(users)[i] != UserIds(users)[j];
      if i == k {
        assert users[j] in users && users[j].id != row.id;
      } else if j == k {
        assert users[i] in users && users[i].id != row.id;
      } else {
        assert UserEmails(users)[i] != UserEmails(users)[j];
      }
    }
    assert Distinct(UserEmails(after));
    assert after[k] == row;
    FindsExactly(after, row);
    if other != row.id && other in UserIds(users) {
      var j :| 0 <= j < |users| && UserIds(users)[j] == other;
      assert after[j] == users[j];
      FindsExactly(users, users[j]);
      FindsExactly(after, users[j]);
    }
  }

  /** `User.update`: overwrites name, email and avatar of that user (the
      password stays) and returns the row read back, `undefined` (None) for
      an unknown id, which matches no row and checks nothing. A null name or
      email breaks NOT NULL; an email another user has breaks UNIQUE. */
  method Update(db: Database, id: string, name: JsValue, email: JsValue, avatar: JsValue)
    returns (r: Result<Option<UserRow>, SqlError>)
    requires db.Valid()
    modifies db`users
    ensures db.Valid()
    ensures id !in UserIds(old(db.users)) ==> r == Ok(None) && db.users == old(db.users)
    ensures id in UserIds(old(db.users)) ==>
      if ToText(name).None? then r == Err(NotNullFailed("users.name")) && db.users == old(db.users)
      else if ToText(email).None? then r == Err(NotNullFailed("users.email")) && db.users == old(db.users)
      else if !EmailFree(old(db.users), id, ToText(email).value) then
        r == Err(UniqueFailed("users.email")) && db.users == old(db.users)
      else
        var row := UserRow(id, ToText(name).value, ToText(email).value, GetById(old(db.users), id).value.password, ToText(avatar));
        r == Ok(Some(row)) && db.users == Overwrite(old(db.users), row)
  {
    var found := GetById(db.users, id);
    if found.None? {
      return Ok(None);
    }
    var nameText, emailText := ToText(name), ToText(email);
    if nameText.None? {
      return Err(NotNullFailed("users.name"));
    }
    if emailText.None? {
      return Err(NotNullFailed("users.email"));
    }
    var taken := GetByEmail(db.users, emailText.value);
    if taken.Some? && taken.value.id != id {
      return Err(UniqueFailed("users.email"));
    }
    assert EmailFree(db.users, id, emailText.value) by {
      forall u | u in db.users && u.email == emailText.value ensures u.id == id {
        FindsExactly(db.users, u);
      }
    }
    var row := UserRow(id, nameText.value, emailText.value, found.value.password, ToText(avatar));
    ghost var before := db.users;
    OverwriteValid(before, row, id);
    db.users := Overwrite(db.users, row);
    r := Ok(GetById(db.users, id));
  }

  /** The users without the row of that id, the others in their order. */
  function RemoveUser(users: seq<UserRow>, id: string): (r: seq<UserRow>)
    ensures forall u :: u in r <==> u in users && u.id != id
  {
    if |users| == 0 then []
    else if users[0].id == id then RemoveUser(users[1..], id)
    else [users[0]] + RemoveUser(users[1..], id)
  }

  /** Removing a user removes its id and keeps the ids distinct. */
  lemma {:induction false} RemoveUserIds(users: seq<UserRow>, id: string)
    ensures forall x :: x in UserIds(RemoveUser(users, id)) <==> x in UserIds(users) && x != id
    ensures Distinct(UserIds(users)) ==> Distinct(UserIds(RemoveUser(users, id)))
  {
    if |users| > 0 {
      var h := users[0];
      var rest := RemoveUser(users[1..], id);
      RemoveUserIds(users[1..], id);
      assert UserIds(users) == [h.id] + UserIds(users[1..]) by {
        assert users == [h] + users[1..];
        UserIdsCons(h, users[1..]);
      }
      assert UserIds(RemoveUser(users, id)) == if h.id != id then [h.id] + UserIds(rest) else UserIds(rest) by {
        UserIdsCons(h, rest);
      }
      RemoveKeyStep(h.id, UserIds(users[1..]), UserIds(rest), UserIds(users), UserIds(RemoveUser(users, id)), id);
    }
  }

  /** Removing a user keeps the emails distinct. */
  lemma {:induction false} RemoveUserEmails(users: seq<UserRow>, id: string)
    requires Distinct(UserEmails(users))
    ensures Distinct(UserEmails(RemoveUser(users, id)))
  {
    if |users| > 0 {
      assert UserEmails(users[1..]) == UserEmails(users)[1..];
      RemoveUserEmails(users[1..], id);
      var rest := RemoveUser(users[1..], id);
      if users[0].id != id {
        assert UserEmails([users[0]] + rest) == [users[0].email] + UserEmails(rest);
        forall k | 0 <= k < |rest| ensures rest[k].email != users[0].email {
          assert rest[k] in users[1..];
          var j :| 0 <= j < |users| - 1 && users[1..][j] == rest[k];
          assert UserEmails(users)[0] != UserEmails(users)[j + 1];
        }
      }
    }
  }

  /** `User.delete`: removes the user, and by ON DELETE CASCADE their
      bookmarks, badge links and streak. An unknown id changes nothing. */
  method Delete(db: Database, id: string)
    requires db.Valid()
    modifies db`users, db`bookmarks, db`userBadges, db`streaks
    ensures db.Valid()
    ensures db.users == RemoveUser(old(db.users), id)
    ensures db.bookmarks == BookmarkModel.OtherUsers(old(db.bookmarks), id)
    ensures db.userBadges == Filter(old(db.userBadges), (l: UserBadge) => l.userId != id)
    ensures db.streaks == old(db.streaks) - {id}
    ensures GetById(db.users, id) == None
    ensures BookmarkModel.GetUserBookmarks(db.bookmarks, id) == {}
    ensures BadgeModel.EarnedBy(db.userBadges, id) == []
    ensures StreakModel.GetByUserId(db.streaks, id) == None
  {
    RemoveUserIds(db.users, id);
    RemoveUserEmails(db.users, id);
    db.bookmarks := BookmarkModel.OtherUsers(db.bookmarks, id);
    db.userBadges := Filter(db.userBadges, (l: UserBadge) => l.userId != id);
    db.streaks := db.streaks - {id};
    db.users := RemoveUser(db.users, id);
    NoneEarned(db.userBadges, id);
  }

  lemma {:induction false} NoneEarned(links: seq<UserBadge>, userId: string)
    requires forall l :: l in links ==> l.userId != userId
    ensures BadgeModel.EarnedBy(links, userId) == []
  {
    if |links| > 0 {
      assert links[0] in links;
      NoneEarned(links[1..], userId);
    }
  }

  /** What `User.getAll` returns. */
  datatype UserListing = UserListing(users: seq<UserRow>, total: nat, totalPages: int, page: int, pageSize: int)

  /** `User.getAll(page, pageSize)`: newest first, `pageSize` rows from
      `(page - 1) * pageSize`, the total over all users and
      `Math.ceil(total / pageSize)` pages. The controller never passes a
      zero page size. */
  function GetAll(users: seq<UserRow>, page: int, pageSize: int): (r: UserListing)
    requires pageSize != 0
    ensures r.total == |users| && r.page == page && r.pageSize == pageSize
    ensures r.users == Paging.Page(NewestFirst(users), pageSize, page)
    ensures r.totalPages == Paging.PageCount(|users|, pageSize)
    ensures pageSize > 0 ==> |r.users| <= pageSize
    ensures forall u :: u in r.users ==> u in users
  {
    var newest := NewestFirst(users);
    var rows := Paging.Page(newest, pageSize, page);
    Paging.WindowSubset(newest, pageSize, (page - 1) * pageSize);
    assert forall u :: u in newest ==> u in users;
    UserListing(rows, |users|, Paging.PageCount(|users|, pageSize), page, pageSize)
  }

  /** Page `page` (from 1) of the listing holds the users from position
      `(page - 1) * pageSize` on, newest first; pages 1 to `totalPages`
      together list every user once, newest first; a later page is empty;
      there are no pages exactly when there are no users. */
  lemma GetAllSpec(users: seq<UserRow>, pageSize: int, page: int)
    requires pageSize > 0
    ensures var n := GetAll(users, 1, pageSize).totalPages;
      && n >= 0
      && Paging.FirstPages(NewestFirst(users), pageSize, n) == NewestFirst(users)
      && (page > n ==> GetAll(users, page, pageSize).users == [])
      && (n == 0 <==> users == [])
    ensures page >= 1 ==>
      var lo := if (page - 1) * pageSize > |users| then |users| else (page - 1) * pageSize;
      var hi := if page * pageSize > |users| then |users| else page * pageSize;
      0 <= lo <= hi && GetAll(users, page, pageSize).users == NewestFirst(users)[lo..hi]
  {
    Paging.PagesPartition(NewestFirst(users), pageSize, page);
    Paging.PageCountSpec(|users|, pageSize);
    if page > Paging.PageCount(|users|, pageSize) {
      Paging.PastTheEnd(NewestFirst(users), pageSize, page);
    }
    if page >= 1 {
      Paging.MulMonotone(0, page - 1, pageSize);
      assert (page - 1) * pageSize + pageSize == page * pageSize;
      Paging.WindowSlice(NewestFirst(users), pageSize, (page - 1) * pageSize);
    }
  }

  /** The streak part of a profile: the stored row, or 0/0 with a null date. */
  datatype ProfileStreak = ProfileStreak(current: int, best: int, lastUpdated: Option<string>)

  /** What `User.getUserWithProfile` returns. The badge query has no ORDER BY
      and the bookmark ids come from an unordered query, so both are sets. */
  datatype Profile = Profile(
    id: string, name: string, email: string, avatar: Option<string>,
    badges: set<BadgeRow>, bookmarks: set<string>, streak: ProfileStreak)

  /** `User.getUserWithProfile`: null for an unknown id; otherwise the user's
      public fields, joined badges, bookmarked flashcard ids and streak. */
  function GetUserWithProfile(users: seq<UserRow>, badges: seq<BadgeRow>, links: seq<UserBadge>,
                              marks: set<Bookmark>, streaks: map<string, StreakRow>, id: string): (r: Option<Profile>)
    ensures r.None? <==> id !in UserIds(users)
  {
    match GetById(users, id)
    case None => None
    case Some(u) =>
      var streak := match StreakModel.GetByUserId(streaks, id)
        case None => ProfileStreak(0, 0, None)
        case Some(s) => ProfileStreak(s.current, s.best, Some(s.lastUpdated));
      var joined := BadgeModel.JoinBadges(BadgeModel.EarnedBy(links, id), badges);
      Some(Profile(u.id, u.name, u.email, u.avatar, (set b | b in joined),
                   BookmarkModel.GetUserBookmarks(marks, id), streak))
  }

  /** For a known user the profile holds their row's fields, exactly the
      badges `getUserBadges` lists, exactly the flashcards they bookmarked,
      and their streak, or 0/0 with a null date when they have none. */
  lemma ProfileSpec(users: seq<UserRow>, badges: seq<BadgeRow>, links: seq<UserBadge>,
                    marks: set<Bookmark>, streaks: map<string, StreakRow>, u: UserRow)
    requires UsersValid(users) && u in users
    requires UserBadgesValid(links, users, badges) && Distinct(BadgeIds(badges))
    ensures var p := GetUserWithProfile(users, badges, links, marks, streaks, u.id);
      && p.Some?
      && p.value.id == u.id && p.value.name == u.name && p.value.email == u.email && p.value.avatar == u.avatar
      && (forall b :: b in p.value.badges <==> b in BadgeModel.GetUserBadges(links, badges, u.id))
      && (forall b :: b in badges ==> (b in p.value.badges <==> UserBadge(u.id, b.id) in links))
      && (forall f :: f in p.value.bookmarks <==> Bookmark(u.id, f) in marks)
      && (u.id in streaks ==> p.value.streak == ProfileStreak(streaks[u.id].current, streaks[u.id].best, Some(streaks[u.id].lastUpdated)))
      && (u.id !in streaks ==> p.value.streak == ProfileStreak(0, 0, None))
  {
    FindsExactly(users, u);
    var earned := BadgeModel.EarnedBy(links, u.id);
    var joined := BadgeModel.JoinBadges(earned, badges);
    var listed := BadgeModel.GetUserBadges(links, badges, u.id);
    BadgeModel.GetUserBadgesSpec(links, users, badges, u.id);
    forall b | b in joined ensures b in listed {
      assert UserBadge(u.id, b.id) in links;
    }
    forall b | b in listed ensures b in joined {
      assert UserBadge(u.id, b.id) in links;
      forall x | x in earned ensures x in BadgeIds(badges) {
        assert UserBadge(u.id, x) in links;
      }
      var k :| 0 <= k < |earned| && earned[k] == b.id;
      BadgeModel.SameId(badges, joined[k], b);
    }
  }
}
