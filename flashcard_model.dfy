/** The `Flashcard` repository over the `flashcards` table: insert, look up,
    the filtered and paginated listing, overwrite and delete, and the
    reshaping of a flat row into the nested record the API returns. */
module FlashcardModel {
  import opened Strings
  import opened JsValues
  import opened Tables
  import opened Paging

  // ---------------------------------------------------------------------
  // The nested record (`_format`)
  // ---------------------------------------------------------------------

  datatype Audio = Audio(cn: Option<string>, en: Option<string>, vi: Option<string>)
  datatype Meanings = Meanings(en: Option<string>, vi: Option<string>)
  datatype Example = Example(hanzi: Option<string>, pinyin: Option<string>, meaningVi: Option<string>)
  datatype Content = Content(
    hanzi: string, pinyin: string, englishPhonetic: Option<string>, imageUrl: Option<string>,
    audio: Audio, meanings: Meanings, exampleSentence: Example)
  datatype Flashcard = Flashcard(id: string, topic: string, level: string, isPremium: bool, content: Content)

  /** `_format`: the flat row as the nested record; `is_premium` reads as `=== 1`. */
  function Format(row: FlashcardRow): Flashcard
  {
    Flashcard(row.id, row.topicId, row.levelId, row.isPremium == 1,
      Content(row.hanzi, row.pinyin, row.englishPhonetic, row.imageUrl,
        Audio(row.audioCn, row.audioEn, row.audioVi),
        Meanings(row.meaningEn, row.meaningVi),
        Example(row.exampleHanzi, row.examplePinyin, row.exampleMeaningVi)))
  }

  /** The inverse reshape: where each nested field is stored. */
  function Flatten(f: Flashcard): FlashcardRow
  {
    FlashcardRow(f.id, f.topic, f.level, if f.isPremium then 1 else 0,
      f.content.hanzi, f.content.pinyin, f.content.englishPhonetic, f.content.imageUrl,
      f.content.audio.cn, f.content.audio.en, f.content.audio.vi,
      f.content.meanings.en, f.content.meanings.vi,
      f.content.exampleSentence.hanzi, f.content.exampleSentence.pinyin, f.content.exampleSentence.meaningVi)
  }

  /** Every stored column lands in exactly one place of the nested record:
      reshaping is undone by flattening, for every row whose `is_premium`
      is 0 or 1 (the only values the repository writes), and the other way
      round for every record. */
  lemma FormatRoundTrip(row: FlashcardRow, f: Flashcard)
    ensures row.isPremium == 0 || row.isPremium == 1 ==> Flatten(Format(row)) == row
    ensures Format(Flatten(f)) == f
  {
  }

  // ---------------------------------------------------------------------
  // Rows in and out
  // ---------------------------------------------------------------------

  /** The object handed to `create` and `update`. Text fields are whatever
      the request carried; `isPremium` is bound as `isPremium ? 1 : 0`. */
  datatype Payload = Payload(
    id: JsValue, topicId: JsValue, levelId: JsValue, isPremium: bool,
    hanzi: JsValue, pinyin: JsValue, englishPhonetic: JsValue, imageUrl: JsValue,
    audioCn: JsValue, audioEn: JsValue, audioVi: JsValue, meaningEn: JsValue, meaningVi: JsValue,
    exampleHanzi: JsValue, examplePinyin: JsValue, exampleMeaningVi: JsValue)

  /** The row the INSERT or UPDATE would store under `id`, or the NOT NULL
      constraint it breaks first (columns are checked in schema order). */
  function RowOf(id: string, p: Payload): Result<FlashcardRow, SqlError>
  {
    if ToText(p.topicId).None? then Err(NotNullFailed("flashcards.topic_id"))
    else if ToText(p.levelId).None? then Err(NotNullFailed("flashcards.level_id"))
    else if ToText(p.hanzi).None? then Err(NotNullFailed("flashcards.hanzi"))
    else if ToText(p.pinyin).None? then Err(NotNullFailed("flashcards.pinyin"))
    else Ok(FlashcardRow(id, ToText(p.topicId).value, ToText(p.levelId).value, if p.isPremium then 1 else 0,
      ToText(p.hanzi).value, ToText(p.pinyin).value, ToText(p.englishPhonetic), ToText(p.imageUrl),
      ToText(p.audioCn), ToText(p.audioEn), ToText(p.audioVi), ToText(p.meaningEn), ToText(p.meaningVi),
      ToText(p.exampleHanzi), ToText(p.examplePinyin), ToText(p.exampleMeaningVi)))
  }

  /** A stored payload reads back field for field: the row is refused exactly
      when one of the four NOT NULL columns would be NULL, and otherwise the
      nested record holds the text of each payload field, with `isPremium`
      coming back as the flag that was written. */
  lemma StoredPayloadReadsBack(id: string, p: Payload)
    ensures RowOf(id, p).Err? <==>
      p.topicId in {Undefined, Null} || p.levelId in {Undefined, Null} ||
      p.hanzi in {Undefined, Null} || p.pinyin in {Undefined, Null}
    ensures RowOf(id, p).Ok? ==>
      var f := Format(RowOf(id, p).value);
      && f.id == id && f.isPremium == p.isPremium
      && Some(f.topic) == ToText(p.topicId) && Some(f.level) == ToText(p.levelId)
      && Some(f.content.hanzi) == ToText(p.hanzi) && Some(f.content.pinyin) == ToText(p.pinyin)
      && f.content.englishPhonetic == ToText(p.englishPhonetic) && f.content.imageUrl == ToText(p.imageUrl)
      && f.content.audio == Audio(ToText(p.audioCn), ToText(p.audioEn), ToText(p.audioVi))
      && f.content.meanings == Meanings(ToText(p.meaningEn), ToText(p.meaningVi))
      && f.content.exampleSentence == Example(ToText(p.exampleHanzi), ToText(p.examplePinyin), ToText(p.exampleMeaningVi))
  {
  }

  /** A stored row carries the id it was stored under and the text of the
      payload's topic and level. */
  lemma RowOfKeys(id: string, p: Payload)
    requires RowOf(id, p).Ok?
    ensures var row := RowOf(id, p).value;
      row.id == id && Some(row.topicId) == ToText(p.topicId) && Some(row.levelId) == ToText(p.levelId)
  {
  }

  /** Both references of a row point at existing rows (foreign keys are on). */
  predicate References(row: FlashcardRow, topics: seq<LabelRow>, levels: seq<LabelRow>)
  {
    row.topicId in LabelIds(topics) && row.levelId in LabelIds(levels)
  }

  function FindRow(rows: seq<FlashcardRow>, id: string): (r: Option<FlashcardRow>)
    ensures r.Some? <==> id in FlashcardIds(rows)
    ensures r.Some? ==> r.value in rows && r.value.id == id
  {
    if |rows| == 0 then None
    else if rows[0].id == id then Some(rows[0])
    else
      assert FlashcardIds(rows[1..]) == FlashcardIds(rows)[1..];
      FindRow(rows[1..], id)
  }

  /** With distinct ids, the row found under an id is the row that has it. */
  lemma {:induction false} FindRowUnique(rows: seq<FlashcardRow>, row: FlashcardRow)
    requires Distinct(FlashcardIds(rows)) && row in rows
    ensures FindRow(rows, row.id) == Some(row)
  {
    if rows[0] != row {
      assert row in rows[1..];
      var k :| 0 < k < |rows| && rows[k] == row;
      assert FlashcardIds(rows)[0] != FlashcardIds(rows)[k];
      assert FlashcardIds(rows[1..]) == FlashcardIds(rows)[1..];
      FindRowUnique(rows[1..], row);
    }
  }

  /** `getById`: the nested record, or null for an unknown id. */
  function GetById(rows: seq<FlashcardRow>, id: string): (r: Option<Flashcard>)
    ensures r.None? <==> id !in FlashcardIds(rows)
    ensures r.Some? ==> exists row :: row in rows && row.id == id && r.value == Format(row)
  {
    match FindRow(rows, id)
    case None => None
    case Some(row) => Some(Format(row))
  }

  // ---------------------------------------------------------------------
  // create / update / delete
  // ---------------------------------------------------------------------

  /** `create`: inserts the payload under its id and returns it read back.
      The statement fails, writing nothing, on a NULL in a NOT NULL column,
      then on an id already in use, then on a topic or level that does not
      exist. Callers always supply an id (the body's or a fresh UUID). */
  method Create(db: Database, p: Payload) returns (r: Result<Flashcard, SqlError>)
    requires db.Valid() && ToText(p.id).Some?
    modifies db`flashcards
    ensures db.Valid()
    ensures var id := ToText(p.id).value;
      match RowOf(id, p)
      case Err(e) => r == Err(e) && db.flashcards == old(db.flashcards)
      case Ok(row) =>
        if id in FlashcardIds(old(db.flashcards)) then
          r == Err(UniqueFailed("flashcards.id")) && db.flashcards == old(db.flashcards)
        else if !References(row, db.topics, db.levels) then
          r == Err(ForeignKeyFailed) && db.flashcards == old(db.flashcards)
        else
          db.flashcards == old(db.flashcards) + [row] && r == Ok(Format(row))
    ensures r.Ok? ==> GetById(db.flashcards, ToText(p.id).value) == Some(r.value)
  {
    var id := ToText(p.id).value;
    var made := RowOf(id, p);
    if made.Err? {
      return Err(made.error);
    }
    var row := made.value;
    if id in FlashcardIds(db.flashcards) {
      return Err(UniqueFailed("flashcards.id"));
    }
    if !References(row, db.topics, db.levels) {
      return Err(ForeignKeyFailed);
    }
    ghost var before := db.flashcards;
    db.flashcards := db.flashcards + [row];
    assert FlashcardIds(db.flashcards) == FlashcardIds(before) + [id];
    FindRowUnique(db.flashcards, row);
    r := Ok(GetById(db.flashcards, id).value);
  }

  /** The rows with the one under `row.id` overwritten by `row`. */
  function Replace(rows: seq<FlashcardRow>, row: FlashcardRow): (r: seq<FlashcardRow>)
    ensures |r| == |rows| && FlashcardIds(r) == FlashcardIds(rows)
    ensures forall i :: 0 <= i < |rows| ==> r[i] == if rows[i].id == row.id then row else rows[i]
  {
    seq(|rows|, i requires 0 <= i < |rows| => if rows[i].id == row.id then row else rows[i])
  }

  /** `update`: overwrites the 15 non-id columns of row `id` and returns it
      read back. An unknown id updates nothing, so no constraint is checked
      and the result is null; otherwise a NULL in a NOT NULL column or a
      missing topic or level fails the statement and nothing changes. */
  method Update(db: Database, id: string, p: Payload) returns (r: Result<Option<Flashcard>, SqlError>)
    requires db.Valid()
    modifies db`flashcards
    ensures db.Valid()
    ensures id !in FlashcardIds(old(db.flashcards)) ==> r == Ok(None) && db.flashcards == old(db.flashcards)
    ensures id in FlashcardIds(old(db.flashcards)) ==>
      match RowOf(id, p)
      case Err(e) => r == Err(e) && db.flashcards == old(db.flashcards)
      case Ok(row) =>
        if !References(row, db.topics, db.levels) then
          r == Err(ForeignKeyFailed) && db.flashcards == old(db.flashcards)
        else
          db.flashcards == Replace(old(db.flashcards), row) && r == Ok(Some(Format(row)))
  {
    if id !in FlashcardIds(db.flashcards) {
      return Ok(None);
    }
    var made := RowOf(id, p);
    if made.Err? {
      return Err(made.error);
    }
    var row := made.value;
    if !References(row, db.topics, db.levels) {
      return Err(ForeignKeyFailed);
    }
    ghost var before := db.flashcards;
    db.flashcards := Replace(db.flashcards, row);
    ReplaceValid(before, db.topics, db.levels, row);
    assert row in db.flashcards by {
      var i :| 0 <= i < |before| && FlashcardIds(before)[i] == id;
      assert db.flashcards[i] == row;
    }
    FindRowUnique(db.flashcards, row);
    r := Ok(GetById(db.flashcards, id));
    assert r == Ok(Some(Format(row)));
  }

  /** Overwriting a row with one whose references exist keeps the table's constraints. */
  lemma ReplaceValid(rows: seq<FlashcardRow>, topics: seq<LabelRow>, levels: seq<LabelRow>, row: FlashcardRow)
    requires FlashcardsValid(rows, topics, levels) && References(row, topics, levels)
    requires row.isPremium == 0 || row.isPremium == 1
    ensures FlashcardsValid(Replace(rows, row), topics, levels)
  {
    var r := Replace(rows, row);
    forall x | x in r ensures References(x, topics, levels) && (x.isPremium == 0 || x.isPremium == 1) {
      var i :| 0 <= i < |r| && r[i] == x;
      assert rows[i] in rows;
    }
  }

  /** Overwriting one row leaves every other id reading what it read before. */
  lemma ReplaceOthers(rows: seq<FlashcardRow>, row: FlashcardRow, other: string)
    requires Distinct(FlashcardIds(rows)) && other != row.id
    ensures GetById(Replace(rows, row), other) == GetById(rows, other)
  {
    var r := Replace(rows, row);
    if other in FlashcardIds(rows) {
      var old1 := FindRow(rows, other).value;
      var i :| 0 <= i < |rows| && rows[i] == old1;
      assert r[i] == old1;
      FindRowUnique(r, old1);
    }
  }

  /** The rows without the one under `id`, the others in their order. */
  function Remove(rows: seq<FlashcardRow>, id: string): (r: seq<FlashcardRow>)
    ensures forall x :: x in r <==> x in rows && x.id != id
  {
    if |rows| == 0 then []
    else if rows[0].id == id then Remove(rows[1..], id)
    else [rows[0]] + Remove(rows[1..], id)
  }

  /** Removing keeps every other id, and keeps the ids distinct. */
  lemma {:induction false} RemoveIds(rows: seq<FlashcardRow>, id: string)
    ensures forall x :: x in FlashcardIds(Remove(rows, id)) <==> x in FlashcardIds(rows) && x != id
    ensures Distinct(FlashcardIds(rows)) ==> Distinct(FlashcardIds(Remove(rows, id)))
  {
    if |rows| > 0 {
      var h := rows[0];
      var rest := Remove(rows[1..], id);
      RemoveIds(rows[1..], id);
      assert FlashcardIds(rows) == [h.id] + FlashcardIds(rows[1..]) by {
        assert rows == [h] + rows[1..];
        FlashcardIdsCons(h, rows[1..]);
      }
      assert FlashcardIds(Remove(rows, id)) == if h.id != id then [h.id] + FlashcardIds(rest) else FlashcardIds(rest) by {
        FlashcardIdsCons(h, rest);
      }
      RemoveKeyStep(h.id, FlashcardIds(rows[1..]), FlashcardIds(rest), FlashcardIds(rows), FlashcardIds(Remove(rows, id)), id);
    }
  }

  /** `delete`: removes row `id`, and its bookmarks go with it (ON DELETE
      CASCADE); an unknown id changes nothing and is not an error. */
  method Delete(db: Database, id: string)
    requires db.Valid()
    modifies db`flashcards, db`bookmarks
    ensures db.Valid()
    ensures db.flashcards == Remove(old(db.flashcards), id)
    ensures db.bookmarks == set b | b in old(db.bookmarks) && b.flashcardId != id
    ensures GetById(db.flashcards, id) == None
  {
    RemoveIds(db.flashcards, id);
    db.flashcards := Remove(db.flashcards, id);
    db.bookmarks := set b | b in db.bookmarks && b.flashcardId != id;
  }

  /** After a delete the id reads null and every other id reads what it read before. */
  lemma DeleteOthers(rows: seq<FlashcardRow>, id: string, other: string)
    requires Distinct(FlashcardIds(rows))
    ensures GetById(Remove(rows, id), id) == None
    ensures other != id ==> GetById(Remove(rows, id), other) == GetById(rows, other)
  {
    RemoveIds(rows, id);
    if other != id && other in FlashcardIds(rows) {
      var row := FindRow(rows, other).value;
      FindRowUnique(Remove(rows, id), row);
    }
  }

  // ---------------------------------------------------------------------
  // getAll: filters, newest first, LIMIT/OFFSET, and the count
  // ---------------------------------------------------------------------

  /** The `options` argument; each field is what the caller passed (or `Undefined`). */
  datatype Options = Options(onlyWithImage: JsValue, keyword: JsValue, premium: JsValue)

  /** What the listing is asked for, besides the page. */
  datatype Query = Query(topic: JsValue, level: JsValue, options: Options)

  /** `premium` after its destructuring default (`= null`, which replaces only `undefined`). */
  function PremiumOption(o: Options): JsValue
  {
    if o.premium.Undefined? then Null else o.premium
  }

  /** One `AND` clause of the WHERE, with its bound parameter. */
  datatype Condition =
    | TopicIs(topic: Option<string>)
    | LevelIs(level: Option<string>)
    | HasImage
    | Mentions(pattern: string)
    | PremiumIs(flag: int)

  /** `col LIKE '%kw%'` without wildcards in `kw`: NULL never matches, and
      ASCII letters match either case. */
  predicate Like(col: Option<string>, kw: string)
  {
    col.Some? && Contains(AsciiLower(col.value), AsciiLower(kw))
  }

  /** What the clause demands of a row (a NULL parameter matches nothing). */
  predicate Holds(c: Condition, row: FlashcardRow)
  {
    match c
    case TopicIs(t) => t == Some(row.topicId)
    case LevelIs(l) => l == Some(row.levelId)
    case HasImage => row.imageUrl.Some? && row.imageUrl.value != ""
    case Mentions(kw) =>
      Like(Some(row.hanzi), kw) || Like(Some(row.pinyin), kw) || Like(row.meaningEn, kw)
      || Like(row.meaningVi, kw) || Like(row.englishPhonetic, kw)
    case PremiumIs(flag) => row.isPremium == flag
  }

  predicate HoldsAll(conds: seq<Condition>, row: FlashcardRow)
  {
    forall c :: c in conds ==> Holds(c, row)
  }

  /** The text searched by the keyword, as a case-insensitive substring. */
  ghost predicate Searchable(col: Option<string>, kw: string)
  {
    col.Some? && exists i :: OccursAt(AsciiLower(col.value), AsciiLower(kw), i)
  }

  /** The rows the listing wants, stated filter by filter: a falsy topic,
      level, image flag or keyword and a null `premium` impose nothing. */
  ghost predicate Wanted(q: Query, row: FlashcardRow)
  {
    && TopicWanted(q, row) && LevelWanted(q, row) && ImageWanted(q, row)
    && KeywordWanted(q, row) && PremiumWanted(q, row)
  }

  predicate TopicWanted(q: Query, row: FlashcardRow)
  {
    Truthy(q.topic) ==> ToText(q.topic) == Some(row.topicId)
  }

  predicate LevelWanted(q: Query, row: FlashcardRow)
  {
    Truthy(q.level) ==> ToText(q.level) == Some(row.levelId)
  }

  predicate ImageWanted(q: Query, row: FlashcardRow)
  {
    Truthy(q.options.onlyWithImage) ==> row.imageUrl.Some? && |row.imageUrl.value| > 0
  }

  /** The keyword, as text, occurs (ignoring ASCII case) in one of the five searched columns. */
  ghost predicate KeywordWanted(q: Query, row: FlashcardRow)
  {
    Truthy(q.options.keyword) ==>
      var kw := JsString(q.options.keyword);
      Searchable(Some(row.hanzi), kw) || Searchable(Some(row.pinyin), kw) || Searchable(row.meaningEn, kw)
      || Searchable(row.meaningVi, kw) || Searchable(row.englishPhonetic, kw)
  }

  /** A non-null `premium` keeps the rows whose flag reads as its truthiness. */
  predicate PremiumWanted(q: Query, row: FlashcardRow)
  {
    !PremiumOption(q.options).Null? ==>
      (row.isPremium == 1 <==> Truthy(PremiumOption(q.options))) && (row.isPremium == 0 || row.isPremium == 1)
  }

  lemma LikeSearchable(col: Option<string>, kw: string)
    ensures Like(col, kw) <==> Searchable(col, kw)
  {
    if col.Some? {
      ContainsIffOccurs(AsciiLower(col.value), AsciiLower(kw));
    }
  }

  /** The keyword clause holds exactly when the keyword is wanted. */
  lemma MentionsKeyword(q: Query, row: FlashcardRow)
    requires Truthy(q.options.keyword)
    ensures Holds(Mentions(JsString(q.options.keyword)), row) <==> KeywordWanted(q, row)
  {
    var kw := JsString(q.options.keyword);
    LikeSearchable(Some(row.hanzi), kw);
    LikeSearchable(Some(row.pinyin), kw);
    LikeSearchable(row.meaningEn, kw);
    LikeSearchable(row.meaningVi, kw);
    LikeSearchable(row.englishPhonetic, kw);
  }

  lemma HoldsAllAppend(conds: seq<Condition>, c: Condition, row: FlashcardRow)
    ensures HoldsAll(conds + [c], row) <==> HoldsAll(conds, row) && Holds(c, row)
  {
    assert forall d :: d in conds + [c] <==> d in conds || d == c;
  }

  /** Builds the WHERE clause the way the source appends to `query` and
      `params`: one condition per filter that is set, in a fixed order. */
  method AppendFilters(q: Query) returns (conds: seq<Condition>)
    ensures forall row: FlashcardRow :: HoldsAll(conds, row) <==> Wanted(q, row)
  {
    conds := [];
    if Truthy(q.topic) {
      conds := conds + [TopicIs(ToText(q.topic))];
    }
    forall row ensures HoldsAll(conds, row) <==> TopicWanted(q, row) {
      HoldsAllAppend([], TopicIs(ToText(q.topic)), row);
    }
    ghost var c1 := conds;
    if Truthy(q.level) {
      conds := conds + [LevelIs(ToText(q.level))];
      forall row ensures HoldsAll(conds, row) <==> HoldsAll(c1, row) && LevelWanted(q, row) {
        HoldsAllAppend(c1, LevelIs(ToText(q.level)), row);
      }
    }
    assert forall row :: HoldsAll(conds, row) <==> TopicWanted(q, row) && LevelWanted(q, row);
    ghost var c2 := conds;
    if Truthy(q.options.onlyWithImage) {
      conds := conds + [HasImage];
      forall row ensures HoldsAll(conds, row) <==> HoldsAll(c2, row) && ImageWanted(q, row) {
        HoldsAllAppend(c2, HasImage, row);
      }
    }
    assert forall row :: HoldsAll(conds, row) <==> TopicWanted(q, row) && LevelWanted(q, row) && ImageWanted(q, row);
    ghost var c3 := conds;
    if Truthy(q.options.keyword) {
      conds := conds + [Mentions(JsString(q.options.keyword))];
      forall row ensures HoldsAll(conds, row) <==> HoldsAll(c3, row) && KeywordWanted(q, row) {
        HoldsAllAppend(c3, Mentions(JsString(q.options.keyword)), row);
        MentionsKeyword(q, row);
      }
    }
    assert forall row :: HoldsAll(conds, row) <==>
      TopicWanted(q, row) && LevelWanted(q, row) && ImageWanted(q, row) && KeywordWanted(q, row);
    ghost var c4 := conds;
    var premium := PremiumOption(q.options);
    if !premium.Null? {
      var flag := if Truthy(premium) then 1 else 0;
      conds := conds + [PremiumIs(flag)];
      forall row ensures HoldsAll(conds, row) <==> HoldsAll(c4, row) && PremiumWanted(q, row) {
        HoldsAllAppend(c4, PremiumIs(flag), row);
      }
    }
  }

  /** `SELECT * ... WHERE <conds>` in table (insertion) order. */
  function Select(rows: seq<FlashcardRow>, conds: seq<Condition>): (r: seq<FlashcardRow>)
    ensures |r| <= |rows|
    ensures forall x :: x in r <==> x in rows && HoldsAll(conds, x)
  {
    if |rows| == 0 then []
    else if HoldsAll(conds, rows[0]) then [rows[0]] + Select(rows[1..], conds)
    else Select(rows[1..], conds)
  }

  /** The rows a query wants, in table order. */
  ghost function Matching(rows: seq<FlashcardRow>, q: Query): (r: seq<FlashcardRow>)
    ensures forall x :: x in r <==> x in rows && Wanted(q, x)
  {
    if |rows| == 0 then []
    else if Wanted(q, rows[0]) then [rows[0]] + Matching(rows[1..], q)
    else Matching(rows[1..], q)
  }

  /** Conditions equivalent to a query select exactly the rows it wants, in order. */
  lemma {:induction false} SelectMatching(rows: seq<FlashcardRow>, conds: seq<Condition>, q: Query)
    requires forall row: FlashcardRow :: HoldsAll(conds, row) <==> Wanted(q, row)
    ensures Select(rows, conds) == Matching(rows, q)
  {
    if |rows| > 0 {
      SelectMatching(rows[1..], conds, q);
    }
  }

  function FormatAll(rows: seq<FlashcardRow>): (r: seq<Flashcard>)
    ensures |r| == |rows| && forall i :: 0 <= i < |rows| ==> r[i] == Format(rows[i])
  {
    seq(|rows|, i requires 0 <= i < |rows| => Format(rows[i]))
  }

  /** What `getAll` returns. */
  datatype Listing = Listing(flashcards: seq<Flashcard>, total: nat, totalPages: int, page: int, pageSize: int)

  /** `getAll`: page `page` of the wanted rows, newest first, `pageSize` to a
      page (LIMIT/OFFSET as SQLite reads them), with the number of wanted
      rows and of pages. The page size is never 0: the controllers replace
      0 by 20. */
  method GetAll(db: Database, page: int, pageSize: int, q: Query) returns (r: Listing)
    requires pageSize != 0
    ensures r.flashcards == FormatAll(Page(NewestFirst(Matching(db.flashcards, q)), pageSize, page))
    ensures r.total == |Matching(db.flashcards, q)|
    ensures r.totalPages == PageCount(r.total, pageSize)
    ensures r.page == page && r.pageSize == pageSize
  {
    var offset := (page - 1) * pageSize;
    var conds := AppendFilters(q);
    SelectMatching(db.flashcards, conds, q);
    var selected := Window(NewestFirst(Select(db.flashcards, conds)), pageSize, offset);
    var countConds := AppendFilters(q);
    SelectMatching(db.flashcards, countConds, q);
    var total := |Select(db.flashcards, countConds)|;
    r := Listing(FormatAll(selected), total, PageCount(total, pageSize), page, pageSize);
  }

  /** A page holds at most `pageSize` rows, each of them wanted; paging
      through every page yields each wanted row once, newest first; and
      `totalPages` is 0 exactly when nothing matches. */
  lemma ListingSpec(rows: seq<FlashcardRow>, q: Query, pageSize: int, page: int)
    requires pageSize > 0
    ensures var all := NewestFirst(Matching(rows, q));
      && |Page(all, pageSize, page)| <= pageSize
      && (forall x :: x in Page(all, pageSize, page) ==> x in rows && Wanted(q, x))
      && FirstPages(all, pageSize, PageCount(|all|, pageSize)) == all
      && (PageCount(|all|, pageSize) == 0 <==> forall x :: x in rows ==> !Wanted(q, x))
  {
    var m := Matching(rows, q);
    var all := NewestFirst(m);
    PagesPartition(all, pageSize, page);
    PageCountSpec(|all|, pageSize);
    WindowSubset(all, pageSize, (page - 1) * pageSize);
    NewestFirstSame(m);
    if |m| > 0 {
      assert m[0] in m;
    }
  }
}
