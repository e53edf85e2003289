/** The `Badge` repository: CRUD over the `badges` table, and the
    `user_badges` links that say which user has earned which badge. */
module BadgeModel {
  import opened JsValues
  import opened Tables

  /** `SELECT * FROM badges WHERE id = ?`: the row, or nothing. */
  function FindBadge(rows: seq<BadgeRow>, id: string): (r: Option<BadgeRow>)
    ensures r.Some? <==> id in BadgeIds(rows)
    ensures r.Some? ==> r.value in rows && r.value.id == id
  {
    if |rows| == 0 then None
    else if rows[0].id == id then Some(rows[0])
    else FindBadge(rows[1..], id)
  }

  /** In a table with distinct ids, a row is the only one with its id. */
  lemma SameId(rows: seq<BadgeRow>, x: BadgeRow, y: BadgeRow)
    requires Distinct(BadgeIds(rows)) && x in rows && y in rows && x.id == y.id
    ensures x == y
  {
    var i :| 0 <= i < |rows| && rows[i] == x;
    var j :| 0 <= j < |rows| && rows[j] == y;
    assert BadgeIds(rows)[i] == BadgeIds(rows)[j];
  }

  /** `Badge.getById`: the row, or `undefined` (None) for an unknown id. */
  function GetById(badges: seq<BadgeRow>, id: string): (r: Option<BadgeRow>)
    ensures r.Some? <==> id in BadgeIds(badges)
    ensures r.Some? ==> r.value in badges && r.value.id == id
  {
    FindBadge(badges, id)
  }

  /** With distinct ids, the row found under an id is the row holding it. */
  lemma GetByIdExact(badges: seq<BadgeRow>, b: BadgeRow)
    requires Distinct(BadgeIds(badges)) && b in badges
    ensures GetById(badges, b.id) == Some(b)
  {
    SameId(badges, GetById(badges, b.id).value, b);
  }

  /** `Badge.getAll`: every badge, newest first. */
  function GetAll(badges: seq<BadgeRow>): (r: seq<BadgeRow>)
    ensures |r| == |badges|
    ensures forall b :: b in r <==> b in badges
    ensures forall i :: 0 <= i < |r| ==> r[i] == badges[|badges| - 1 - i]
  {
    NewestFirstSame(badges);
    NewestFirst(badges)
  }

  /** `Badge.create`: inserts the row and returns it read back. The name
      column is NOT NULL (checked first); an id in use fails on the primary
      key. `icon` and `description` default to null. */
  method Create(db: Database, id: string, name: JsValue, icon: JsValue, description: JsValue)
    returns (r: Result<BadgeRow, SqlError>)
    requires db.Valid()
    modifies db`badges
    ensures db.Valid()
    ensures ToText(name).None? ==> r == Err(NotNullFailed("badges.name")) && db.badges == old(db.badges)
    ensures ToText(name).Some? && id in BadgeIds(old(db.badges)) ==>
      r == Err(UniqueFailed("badges.id")) && db.badges == old(db.badges)
    ensures ToText(name).Some? && id !in BadgeIds(old(db.badges)) ==>
      var row := BadgeRow(id, ToText(name).value, ToText(icon), ToText(description));
      r == Ok(row) && db.badges == old(db.badges) + [row]
    ensures r.Ok? ==> GetById(db.badges, id) == Some(r.value)
  {
    var text := ToText(name);
    if text.None? {
      return Err(NotNullFailed("badges.name"));
    }
    if id in BadgeIds(db.badges) {
      return Err(UniqueFailed("badges.id"));
    }
    var row := BadgeRow(id, text.value, ToText(icon), ToText(description));
    ghost var before := db.badges;
    db.badges := db.badges + [row];
    assert BadgeIds(db.badges) == BadgeIds(before) + [id];
    assert Distinct(BadgeIds(db.badges));
    GetByIdExact(db.badges, row);
    r := Ok(row);
  }

  /** The badges with the row under `row.id` replaced by `row`. */
  function Overwrite(rows: seq<BadgeRow>, row: BadgeRow): (r: seq<BadgeRow>)
    ensures |r| == |rows| && BadgeIds(r) == BadgeIds(rows)
    ensures forall i :: 0 <= i < |rows| ==> r[i] == if rows[i].id == row.id then row else rows[i]
  {
    seq(|rows|, i requires 0 <= i < |rows| => if rows[i].id == row.id then row else rows[i])
  }

  /** Overwriting a row changes what its id finds and nothing else. */
  lemma OverwriteFinds(rows: seq<BadgeRow>, row: BadgeRow, other: string)
    requires Distinct(BadgeIds(rows)) && row.id in BadgeIds(rows)
    ensures GetById(Overwrite(rows, row), row.id) == Some(row)
    ensures other != row.id ==> GetById(Overwrite(rows, row), other) == GetById(rows, other)
  {
    var after := Overwrite(rows, row);
    var i :| 0 <= i < |rows| && BadgeIds(rows)[i] == row.id;
    assert after[i] == row;
    GetByIdExact(after, row);
    if other != row.id && other in BadgeIds(rows) {
      var j :| 0 <= j < |rows| && BadgeIds(rows)[j] == other;
      assert after[j] == rows[j];
      GetByIdExact(rows, rows[j]);
      GetByIdExact(after, rows[j]);
    }
  }

  /** `Badge.update`: overwrites name, icon and description of that badge
      and returns the row read back, `undefined` (None) for an unknown id (the
      UPDATE then matches no row and checks nothing). A null name breaks NOT NULL. */
  method Update(db: Database, id: string, name: JsValue, icon: JsValue, description: JsValue)
    returns (r: Result<Option<BadgeRow>, SqlError>)
    requires db.Valid()
    modifies db`badges
    ensures db.Valid()
    ensures id !in BadgeIds(old(db.badges)) ==> r == Ok(None) && db.badges == old(db.badges)
    ensures id in BadgeIds(old(db.badges)) && ToText(name).None? ==>
      r == Err(NotNullFailed("badges.name")) && db.badges == old(db.badges)
    ensures id in BadgeIds(old(db.badges)) && ToText(name).Some? ==>
      var row := BadgeRow(id, ToText(name).value, ToText(icon), ToText(description));
      r == Ok(Some(row)) && db.badges == Overwrite(old(db.badges), row)
  {
    if id !in BadgeIds(db.badges) {
      return Ok(None);
    }
    var text := ToText(name);
    if text.None? {
      return Err(NotNullFailed("badges.name"));
    }
    var row := BadgeRow(id, text.value, ToText(icon), ToText(description));
    ghost var before := db.badges;
    db.badges := Overwrite(db.badges, row);
    OverwriteFinds(before, row, id);
    r := Ok(GetById(db.badges, id));
  }

  /** The badges without the row of that id, the others in their order. */
  function RemoveBadge(rows: seq<BadgeRow>, id: string): (r: seq<BadgeRow>)
    ensures forall x :: x in r <==> x in rows && x.id != id
  {
    if |rows| == 0 then []
    else if rows[0].id == id then RemoveBadge(rows[1..], id)
    else [rows[0]] + RemoveBadge(rows[1..], id)
  }

  /** Removing a badge removes its id and keeps the ids distinct. */
  lemma {:induction false} RemoveBadgeIds(rows: seq<BadgeRow>, id: string)
    ensures forall x :: x in BadgeIds(RemoveBadge(rows, id)) <==> x in BadgeIds(rows) && x != id
    ensures Distinct(BadgeIds(rows)) ==> Distinct(BadgeIds(RemoveBadge(rows, id)))
  {
    if |rows| > 0 {
      var h := rows[0];
      var rest := RemoveBadge(rows[1..], id);
      RemoveBadgeIds(rows[1..], id);
      assert BadgeIds(rows) == [h.id] + BadgeIds(rows[1..]) by {
        assert rows == [h] + rows[1..];
        BadgeIdsCons(h, rows[1..]);
      }
      assert BadgeIds(RemoveBadge(rows, id)) == if h.id != id then [h.id] + BadgeIds(rest) else BadgeIds(rest) by {
        BadgeIdsCons(h, rest);
      }
      RemoveKeyStep(h.id, BadgeIds(rows[1..]), BadgeIds(rest), BadgeIds(rows), BadgeIds(RemoveBadge(rows, id)), id);
    }
  }

  /** `Badge.delete`: removes the badge; its `user_badges` links go with it
      (ON DELETE CASCADE). An unknown id changes nothing. */
  method Delete(db: Database, id: string)
    requires db.Valid()
    modifies db`badges, db`userBadges
    ensures db.Valid()
    ensures db.badges == RemoveBadge(old(db.badges), id)
    ensures db.userBadges == Filter(old(db.userBadges), (l: UserBadge) => l.badgeId != id)
    ensures GetById(db.badges, id) == None
    ensures forall l :: l in db.userBadges ==> l.badgeId != id
  {
    db.userBadges := Filter(db.userBadges, (l: UserBadge) => l.badgeId != id);
    RemoveBadgeIds(db.badges, id);
    db.badges := RemoveBadge(db.badges, id);
  }

  /** The ids of the badges the user has earned, in the order earned. */
  function EarnedBy(links: seq<UserBadge>, userId: string): (ids: seq<string>)
    ensures forall b :: b in ids <==> UserBadge(userId, b) in links
    ensures Distinct(links) ==> Distinct(ids)
  {
    if |links| == 0 then []
    else
      var rest := EarnedBy(links[1..], userId);
      assert forall b :: b in rest <==> UserBadge(userId, b) in links[1..];
      assert links == [links[0]] + links[1..];
      if links[0].userId == userId then [links[0].badgeId] + rest else rest
  }

  /** The inner join of badge ids with the badges table, in the order of the ids. */
  function JoinBadges(ids: seq<string>, badges: seq<BadgeRow>): (r: seq<BadgeRow>)
    ensures forall b :: b in r ==> b in badges && b.id in ids
    ensures (forall x :: x in ids ==> x in BadgeIds(badges)) ==>
      |r| == |ids| && forall i :: 0 <= i < |ids| ==> r[i].id == ids[i]
  {
    if |ids| == 0 then []
    else
      var rest := JoinBadges(ids[1..], badges);
      match FindBadge(badges, ids[0])
      case None => rest
      case Some(b) => [b] + rest
  }

  /** `Badge.getUserBadges`: the badges linked to the user, most recently
      earned first. */
  function GetUserBadges(links: seq<UserBadge>, badges: seq<BadgeRow>, userId: string): seq<BadgeRow>
  {
    JoinBadges(NewestFirst(EarnedBy(links, userId)), badges)
  }

  /** In a valid database every badge the user earned is joined: the user's
      badges are their earned badge ids, the last one earned first. */
  lemma GetUserBadgesOrder(links: seq<UserBadge>, users: seq<UserRow>, badges: seq<BadgeRow>, userId: string)
    requires UserBadgesValid(links, users, badges)
    ensures var r := GetUserBadges(links, badges, userId);
      var earned := EarnedBy(links, userId);
      && |r| == |earned|
      && (forall i :: 0 <= i < |r| ==> r[i].id == earned[|earned| - 1 - i])
  {
    EarnedExist(links, users, badges, userId);
    JoinNewestFirst(EarnedBy(links, userId), badges);
  }

  /** Joining ids that all name a badge, newest first, gives one badge per
      id, in reverse order. */
  lemma JoinNewestFirst(earned: seq<string>, badges: seq<BadgeRow>)
    requires forall x :: x in earned ==> x in BadgeIds(badges)
    ensures var r := JoinBadges(NewestFirst(earned), badges);
      |r| == |earned| && forall i :: 0 <= i < |r| ==> r[i].id == earned[|earned| - 1 - i]
  {
    var ids := NewestFirst(earned);
    assert forall x :: x in ids ==> x in BadgeIds(badges) by {
      NewestFirstSame(earned);
    }
  }

  /** In a valid database every badge id a user earned names a badge. */
  lemma EarnedExist(links: seq<UserBadge>, users: seq<UserRow>, badges: seq<BadgeRow>, userId: string)
    requires UserBadgesValid(links, users, badges)
    ensures forall x :: x in EarnedBy(links, userId) ==> x in BadgeIds(badges)
  {
    forall x | x in EarnedBy(links, userId) ensures x in BadgeIds(badges) {
      assert UserBadge(userId, x) in links;
    }
  }

  /** In a valid database the user's badges are exactly the badges they are
      linked to, each once. */
  lemma GetUserBadgesSpec(links: seq<UserBadge>, users: seq<UserRow>, badges: seq<BadgeRow>, userId: string)
    requires UserBadgesValid(links, users, badges) && Distinct(BadgeIds(badges))
    ensures var r := GetUserBadges(links, badges, userId);
      && (forall b :: b in badges ==> (b in r <==> UserBadge(userId, b.id) in links))
      && Distinct(r)
  {
    var earned := EarnedBy(links, userId);
    var r := GetUserBadges(links, badges, userId);
    GetUserBadgesOrder(links, users, badges, userId);
    forall b | b in badges && UserBadge(userId, b.id) in links ensures b in r {
      var k :| 0 <= k < |earned| && earned[k] == b.id;
      var i := |earned| - 1 - k;
      assert r[i].id == b.id;
      SameId(badges, r[i], b);
    }
    forall i, j | 0 <= i < j < |r| ensures r[i] != r[j] {
      assert earned[|earned| - 1 - i] != earned[|earned| - 1 - j];
    }
  }

  /** `Badge.addBadgeToUser` (INSERT OR IGNORE): a link already there is left
      alone; otherwise it is appended as the latest earned, unless the user or
      the badge does not exist, which the IGNORE does not cover. */
  method AddBadgeToUser(db: Database, userId: string, badgeId: string) returns (r: Result<(), SqlError>)
    requires db.Valid()
    modifies db`userBadges
    ensures db.Valid()
    ensures UserBadge(userId, badgeId) in old(db.userBadges) ==> r == Ok(()) && db.userBadges == old(db.userBadges)
    ensures UserBadge(userId, badgeId) !in old(db.userBadges) ==>
      if userId in UserIds(db.users) && badgeId in BadgeIds(db.badges) then
        r == Ok(()) && db.userBadges == old(db.userBadges) + [UserBadge(userId, badgeId)]
      else
        r == Err(ForeignKeyFailed) && db.userBadges == old(db.userBadges)
  {
    var link := UserBadge(userId, badgeId);
    if link in db.userBadges {
      return Ok(());
    }
    if userId !in UserIds(db.users) || badgeId !in BadgeIds(db.badges) {
      return Err(ForeignKeyFailed);
    }
    db.userBadges := db.userBadges + [link];
    r := Ok(());
  }

  /** A badge added to a user is among the user's badges, and it comes first. */
  lemma AddedComesFirst(links: seq<UserBadge>, badges: seq<BadgeRow>, userId: string, b: BadgeRow)
    requires Distinct(BadgeIds(badges)) && b in badges
    ensures var r := GetUserBadges(links + [UserBadge(userId, b.id)], badges, userId);
      |r| > 0 && r[0] == b
  {
    var after := links + [UserBadge(userId, b.id)];
    EarnedAppended(links, userId, b.id);
    var ids := NewestFirst(EarnedBy(after, userId));
    assert ids[0] == b.id;
    GetByIdExact(badges, b);
    assert ids == [b.id] + ids[1..];
  }

  /** Appending a link of the user appends its badge to what they earned,
      and leaves what every other user earned as it was. */
  lemma {:induction false} EarnedAppended(links: seq<UserBadge>, userId: string, badgeId: string)
    ensures EarnedBy(links + [UserBadge(userId, badgeId)], userId) == EarnedBy(links, userId) + [badgeId]
    ensures forall u :: u != userId ==> EarnedBy(links + [UserBadge(userId, badgeId)], u) == EarnedBy(links, u)
  {
    if |links| == 0 {
      assert [UserBadge(userId, badgeId)][1..] == [];
    } else {
      assert (links + [UserBadge(userId, badgeId)])[1..] == links[1..] + [UserBadge(userId, badgeId)];
      EarnedAppended(links[1..], userId, badgeId);
    }
  }

  /** `Badge.removeBadgeFromUser`: deletes that one link; an absent link changes nothing. */
  method RemoveBadgeFromUser(db: Database, userId: string, badgeId: string)
    requires db.Valid()
    modifies db`userBadges
    ensures db.Valid()
    ensures db.userBadges == Filter(old(db.userBadges), (l: UserBadge) => l != UserBadge(userId, badgeId))
    ensures UserBadge(userId, badgeId) !in db.userBadges
    ensures forall l :: l != UserBadge(userId, badgeId) ==> (l in db.userBadges <==> l in old(db.userBadges))
  {
    db.userBadges := Filter(db.userBadges, (l: UserBadge) => l != UserBadge(userId, badgeId));
  }
}
