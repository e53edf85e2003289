/** The SQLite database as in-memory tables, with the schema's primary-key,
    UNIQUE and foreign-key constraints as the invariant `Database.Valid`
    (foreign keys are enforced: the driver turns `foreign_keys` on).

    Tables whose rows the source reads `ORDER BY created_at` keep their rows
    in a sequence in insertion order, so a row's position is its creation
    sequence number. Bookmarks, read without any ORDER BY, are a set;
    streaks, keyed by user, are a map. */
module Tables {
  import opened JsValues

  /** The constraint a failed statement reports. */
  datatype SqlError = NotNullFailed(column: string) | UniqueFailed(column: string) | ForeignKeyFailed

  /** The message of a failed statement: the driver re-throws the sqlite3
      error as it is, whose message is the result code, a colon and
      SQLite's own wording. */
  function SqlMessage(e: SqlError): string
  {
    "SQLITE_CONSTRAINT: " +
    (match e
     case NotNullFailed(column) => "NOT NULL constraint failed: " + column
     case UniqueFailed(column) => "UNIQUE constraint failed: " + column
     case ForeignKeyFailed => "FOREIGN KEY constraint failed")
  }

  /** A row of `topics` or `levels`: both tables are (id, label); `label` is a Dafny keyword, hence `labelText`. */
  datatype LabelRow = LabelRow(id: string, labelText: string)

  /** A row of `flashcards`, columns in schema order. `isPremium` holds the
      integer the source binds (1 or 0). */
  datatype FlashcardRow = FlashcardRow(
    id: string, topicId: string, levelId: string, isPremium: int,
    hanzi: string, pinyin: string, englishPhonetic: Option<string>,
    imageUrl: Option<string>, audioCn: Option<string>, audioEn: Option<string>,
    audioVi: Option<string>, meaningEn: Option<string>, meaningVi: Option<string>,
    exampleHanzi: Option<string>, examplePinyin: Option<string>,
    exampleMeaningVi: Option<string>)

  datatype UserRow = UserRow(id: string, name: string, email: string, password: string, avatar: Option<string>)

  datatype BadgeRow = BadgeRow(id: string, name: string, icon: Option<string>, description: Option<string>)

  /** A row of `user_badges`; the table keeps them in the order they were earned. */
  datatype UserBadge = UserBadge(userId: string, badgeId: string)

  datatype Bookmark = Bookmark(userId: string, flashcardId: string)

  datatype StreakRow = StreakRow(current: int, best: int, lastUpdated: string)

  predicate Distinct<T(==)>(s: seq<T>)
  {
    forall i, j :: 0 <= i < j < |s| ==> s[i] != s[j]
  }

  function LabelIds(rows: seq<LabelRow>): (ids: seq<string>)
    ensures |ids| == |rows| && forall i :: 0 <= i < |rows| ==> ids[i] == rows[i].id
  {
    seq(|rows|, i requires 0 <= i < |rows| => rows[i].id)
  }

  lemma LabelIdsCons(x: LabelRow, rest: seq<LabelRow>)
    ensures LabelIds([x] + rest) == [x.id] + LabelIds(rest)
  {
  }

  function FlashcardIds(rows: seq<FlashcardRow>): (ids: seq<string>)
    ensures |ids| == |rows| && forall i :: 0 <= i < |rows| ==> ids[i] == rows[i].id
  {
    seq(|rows|, i requires 0 <= i < |rows| => rows[i].id)
  }

  lemma FlashcardIdsCons(x: FlashcardRow, rest: seq<FlashcardRow>)
    ensures FlashcardIds([x] + rest) == [x.id] + FlashcardIds(rest)
  {
  }

  /** The `topic_id` column of the flashcards, in table order. */
  function FlashcardTopics(rows: seq<FlashcardRow>): (ids: seq<string>)
    ensures |ids| == |rows| && forall i :: 0 <= i < |rows| ==> ids[i] == rows[i].topicId
  {
    seq(|rows|, i requires 0 <= i < |rows| => rows[i].topicId)
  }

  /** The `level_id` column of the flashcards, in table order. */
  function FlashcardLevels(rows: seq<FlashcardRow>): (ids: seq<string>)
    ensures |ids| == |rows| && forall i :: 0 <= i < |rows| ==> ids[i] == rows[i].levelId
  {
    seq(|rows|, i requires 0 <= i < |rows| => rows[i].levelId)
  }

  function UserIds(rows: seq<UserRow>): (ids: seq<string>)
    ensures |ids| == |rows| && forall i :: 0 <= i < |rows| ==> ids[i] == rows[i].id
  {
    seq(|rows|, i requires 0 <= i < |rows| => rows[i].id)
  }

  lemma UserIdsCons(x: UserRow, rest: seq<UserRow>)
    ensures UserIds([x] + rest) == [x.id] + UserIds(rest)
  {
  }

  function UserEmails(rows: seq<UserRow>): (emails: seq<string>)
    ensures |emails| == |rows| && forall i :: 0 <= i < |rows| ==> emails[i] == rows[i].email
  {
    seq(|rows|, i requires 0 <= i < |rows| => rows[i].email)
  }

  function BadgeIds(rows: seq<BadgeRow>): (ids: seq<string>)
    ensures |ids| == |rows| && forall i :: 0 <= i < |rows| ==> ids[i] == rows[i].id
  {
    seq(|rows|, i requires 0 <= i < |rows| => rows[i].id)
  }

  lemma BadgeIdsCons(x: BadgeRow, rest: seq<BadgeRow>)
    ensures BadgeIds([x] + rest) == [x.id] + BadgeIds(rest)
  {
  }

  /** The rows a `DELETE ... WHERE` keeps: those `keep` accepts, in their order. */
  function Filter<T(==,!new)>(s: seq<T>, keep: T -> bool): (r: seq<T>)
    ensures |r| <= |s|
    ensures forall x :: x in r <==> x in s && keep(x)
    ensures Distinct(s) ==> Distinct(r)
  {
    if |s| == 0 then []
    else
      var rest := Filter(s[1..], keep);
      assert s[0] !in s[1..] ==> s[0] !in rest;
      if keep(s[0]) then [s[0]] + rest else rest
  }

  /** `ORDER BY created_at DESC`: the rows by creation position, newest first. */
  function NewestFirst<T>(rows: seq<T>): (r: seq<T>)
    ensures |r| == |rows| && forall i :: 0 <= i < |rows| ==> r[i] == rows[|rows| - 1 - i]
  {
    seq(|rows|, i requires 0 <= i < |rows| => rows[|rows| - 1 - i])
  }

  /** Newest first holds the same rows. */
  lemma NewestFirstSame<T>(rows: seq<T>)
    ensures forall x :: x in NewestFirst(rows) <==> x in rows
  {
    var r := NewestFirst(rows);
    forall x | x in rows ensures x in r {
      var i :| 0 <= i < |rows| && rows[i] == x;
      assert r[|rows| - 1 - i] == x;
    }
  }

  /** A key sequence with a new head is distinct exactly when the tail is and
      does not hold the head. */
  lemma ConsDistinct<T>(h: T, tail: seq<T>)
    ensures Distinct([h] + tail) <==> h !in tail && Distinct(tail)
  {
    var s := [h] + tail;
    if Distinct(s) {
      forall i, j | 0 <= i < j < |tail| ensures tail[i] != tail[j] {
        assert tail[i] == s[i + 1] && tail[j] == s[j + 1];
      }
      forall j | 0 <= j < |tail| ensures tail[j] != h {
        assert s[0] == h && tail[j] == s[j + 1];
      }
    }
    if h !in tail && Distinct(tail) {
      forall i, j | 0 <= i < j < |s| ensures s[i] != s[j] {
        assert s[j] == tail[j - 1];
        if i > 0 {
          assert s[i] == tail[i - 1];
        }
      }
    }
  }

  /** One step of a delete by key, on the key column: dropping the head when
      it is the deleted key, keeping it otherwise, removes exactly that key
      and keeps the keys distinct. */
  lemma RemoveKeyStep<T>(h: T, tailIds: seq<T>, restIds: seq<T>, allIds: seq<T>, outIds: seq<T>, id: T)
    requires allIds == [h] + tailIds
    requires outIds == if h != id then [h] + restIds else restIds
    requires forall x :: x in restIds <==> x in tailIds && x != id
    requires Distinct(tailIds) ==> Distinct(restIds)
    ensures forall x :: x in outIds <==> x in allIds && x != id
    ensures Distinct(allIds) ==> Distinct(outIds)
  {
    ConsDistinct(h, tailIds);
    ConsDistinct(h, restIds);
  }

  /** flashcards: PRIMARY KEY (id); topic_id and level_id reference existing rows. */
  predicate FlashcardsValid(rows: seq<FlashcardRow>, topics: seq<LabelRow>, levels: seq<LabelRow>)
  {
    && Distinct(FlashcardIds(rows))
    && forall r :: r in rows ==>
         r.topicId in LabelIds(topics) && r.levelId in LabelIds(levels) && (r.isPremium == 0 || r.isPremium == 1)
  }

  /** users: PRIMARY KEY (id), UNIQUE (email). */
  predicate UsersValid(rows: seq<UserRow>)
  {
    Distinct(UserIds(rows)) && Distinct(UserEmails(rows))
  }

  /** user_badges: UNIQUE (user_id, badge_id), both foreign keys. */
  predicate UserBadgesValid(links: seq<UserBadge>, users: seq<UserRow>, badges: seq<BadgeRow>)
  {
    && Distinct(links)
    && forall l :: l in links ==> l.userId in UserIds(users) && l.badgeId in BadgeIds(badges)
  }

  /** bookmarks: UNIQUE (user_id, flashcard_id) (a set), both foreign keys. */
  predicate BookmarksValid(marks: set<Bookmark>, users: seq<UserRow>, flashcards: seq<FlashcardRow>)
  {
    forall b :: b in marks ==> b.userId in UserIds(users) && b.flashcardId in FlashcardIds(flashcards)
  }

  /** streaks: PRIMARY KEY (user_id), which references users. */
  predicate StreaksValid(streaks: map<string, StreakRow>, users: seq<UserRow>)
  {
    forall u :: u in streaks ==> u in UserIds(users)
  }

  class Database {
    var topics: seq<LabelRow>
    var levels: seq<LabelRow>
    var flashcards: seq<FlashcardRow>
    var users: seq<UserRow>
    var badges: seq<BadgeRow>
    var userBadges: seq<UserBadge>
    var bookmarks: set<Bookmark>
    var streaks: map<string, StreakRow>

    ghost predicate Valid()
      reads this
    {
      && Distinct(LabelIds(topics))
      && Distinct(LabelIds(levels))
      && FlashcardsValid(flashcards, topics, levels)
      && UsersValid(users)
      && Distinct(BadgeIds(badges))
      && UserBadgesValid(userBadges, users, badges)
      && BookmarksValid(bookmarks, users, flashcards)
      && StreaksValid(streaks, users)
    }

    /** A freshly created schema: every table empty. */
    constructor ()
      ensures Valid()
      ensures topics == [] && levels == [] && flashcards == [] && users == []
      ensures badges == [] && userBadges == [] && bookmarks == {} && streaks == map[]
    {
      topics, levels, flashcards, users := [], [], [], [];
      badges, userBadges, bookmarks, streaks := [], [], {}, map[];
    }
  }
}
