/** The `Streak` repository: at most one streak row per user (`user_id` is
    the primary key). `CURRENT_DATE` is the `today` parameter. */
module StreakModel {
  import opened JsValues
  import opened Tables

  /** `Streak.getByUserId`: the user's row, or `undefined` (None). */
  function GetByUserId(streaks: map<string, StreakRow>, userId: string): (r: Option<StreakRow>)
    ensures r.Some? <==> userId in streaks
    ensures r.Some? ==> r.value == streaks[userId]
  {
    if userId in streaks then Some(streaks[userId]) else None
  }

  /** The table after `initializeStreak` succeeds: an existing row is kept
      (INSERT OR IGNORE), otherwise a row (0, 0, today) appears. */
  function Initialized(streaks: map<string, StreakRow>, userId: string, today: string): (r: map<string, StreakRow>)
    ensures GetByUserId(r, userId).Some?
    ensures userId !in streaks ==> GetByUserId(r, userId) == Some(StreakRow(0, 0, today))
    ensures userId in streaks ==> r == streaks
    ensures forall u :: u != userId ==> GetByUserId(r, u) == GetByUserId(streaks, u)
  {
    if userId in streaks then streaks else streaks[userId := StreakRow(0, 0, today)]
  }

  /** Initializing twice is initializing once, whatever the second date. */
  lemma InitializeIdempotent(streaks: map<string, StreakRow>, userId: string, today: string, later: string)
    ensures Initialized(Initialized(streaks, userId, today), userId, later) == Initialized(streaks, userId, today)
  {
  }

  /** `Streak.initializeStreak`. A missing user breaks the foreign key, which
      the OR IGNORE does not cover; a user with a row keeps it untouched. */
  method InitializeStreak(db: Database, userId: string, today: string) returns (r: Result<(), SqlError>)
    requires db.Valid()
    modifies db`streaks
    ensures db.Valid()
    ensures userId in old(db.streaks) || userId in UserIds(db.users) ==>
      r == Ok(()) && db.streaks == Initialized(old(db.streaks), userId, today)
    ensures userId !in old(db.streaks) && userId !in UserIds(db.users) ==>
      r == Err(ForeignKeyFailed) && db.streaks == old(db.streaks)
  {
    if userId in db.streaks {
      return Ok(());
    }
    if userId !in UserIds(db.users) {
      return Err(ForeignKeyFailed);
    }
    db.streaks := Initialized(db.streaks, userId, today);
    r := Ok(());
  }

  /** The table after `updateStreak`: only an existing row changes. */
  function Updated(streaks: map<string, StreakRow>, userId: string, current: int, best: int, today: string): (r: map<string, StreakRow>)
    ensures userId in streaks ==> GetByUserId(r, userId) == Some(StreakRow(current, best, today))
    ensures userId !in streaks ==> r == streaks
    ensures forall u :: u != userId ==> GetByUserId(r, u) == GetByUserId(streaks, u)
    ensures r.Keys == streaks.Keys
  {
    if userId in streaks then streaks[userId := StreakRow(current, best, today)] else streaks
  }

  /** `Streak.updateStreak`: sets current and best and stamps today, for that
      user only; a user without a row is left without one. */
  method UpdateStreak(db: Database, userId: string, current: int, best: int, today: string)
    requires db.Valid()
    modifies db`streaks
    ensures db.Valid()
    ensures db.streaks == Updated(old(db.streaks), userId, current, best, today)
  {
    db.streaks := Updated(db.streaks, userId, current, best, today);
  }

  /** `Streak.deleteByUserId`: afterwards the user has no row; the others keep theirs. */
  method DeleteByUserId(db: Database, userId: string)
    requires db.Valid()
    modifies db`streaks
    ensures db.Valid()
    ensures db.streaks == old(db.streaks) - {userId}
    ensures GetByUserId(db.streaks, userId) == None
    ensures forall u :: u != userId ==> GetByUserId(db.streaks, u) == GetByUserId(old(db.streaks), u)
  {
    db.streaks := db.streaks - {userId};
  }
}
