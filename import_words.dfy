/** The vocabulary import: every item of the word list becomes a flashcard
    of the default topic, unless a flashcard with the same hanzi and level
    is already there; the whole run is one transaction. The parsed file is
    a parameter (`None` when it is not an array) and so are the fresh
    UUIDs, one per item. */
module ImportWords {
  import opened Strings
  import opened JsValues
  import opened Tables
  import opened Constants
  import TopicModel
  import LevelModel
  import FlashcardModel

  /** A word of the list, as parsed from JSON. */
  datatype WordItem = WordItem(levelId: JsValue, hanzi: JsValue, pinyin: JsValue,
                               meaningEn: JsValue, meaningVi: JsValue, exampleHanzi: JsValue)

  // ---------------------------------------------------------------------
  // levelLabelFromId
  // ---------------------------------------------------------------------

  /** `levelLabelFromId`: "HSK d" when the id, upper-cased, is "HSK" and one
      digit `d`; otherwise the id as a string. */
  function LevelLabel(levelId: JsValue): string
  {
    var u := Upper(JsString(levelId));
    if |u| == 4 && u[..3] == "HSK" && IsDigit(u[3]) then "HSK " + [u[3]] else JsString(levelId)
  }

  /** The labels the import invents agree with the application's own table
      of levels: for each allowed level id, in lower or upper case, the
      label is the one the table gives it. */
  lemma LevelLabelAgrees(k: nat)
    requires k < |AllowedLevels|
    ensures LevelLabel(Str(AllowedLevels[k].id)) == AllowedLevels[k].labelText
    ensures LevelLabel(Str(Upper(AllowedLevels[k].id))) == AllowedLevels[k].labelText
  {
    var id := AllowedLevels[k].id;
    var d := DigitChar(k + 1);
    assert id == "hsk" + [d];
    assert Upper(id) == "HSK" + [d];
    assert Upper(Upper(id)) == "HSK" + [d];
    assert AllowedLevels[k].labelText == "HSK " + [d];
  }

  // ---------------------------------------------------------------------
  // ensureTopicAndLevel
  // ---------------------------------------------------------------------

  /** `ensureTopicAndLevel(levelId)`: the default topic, and the level under
      the text of `levelId` with its label, are created each only if absent. */
  method EnsureTopicAndLevel(db: Database, levelId: JsValue)
    requires db.Valid() && Truthy(levelId)
    modifies db`topics, db`levels
    ensures db.Valid()
    ensures db.topics == if DefaultTopicId in LabelIds(old(db.topics)) then old(db.topics)
                         else old(db.topics) + [LabelRow(DefaultTopicId, DefaultTopicLabel)]
    ensures var key := ToText(levelId).value;
      db.levels == if key in LabelIds(old(db.levels)) then old(db.levels)
                   else old(db.levels) + [LabelRow(key, LevelLabel(levelId))]
    ensures DefaultTopicId in LabelIds(db.topics) && ToText(levelId).value in LabelIds(db.levels)
  {
    var t := TopicModel.GetById(db.topics, DefaultTopicId);
    if t.None? {
      var created := TopicModel.Create(db, DefaultTopicId, DefaultTopicLabel);
      assert LabelIds(db.topics)[|db.topics| - 1] == DefaultTopicId;
    }
    assert DefaultTopicId in LabelIds(db.topics);
    ghost var topics := db.topics;
    var key := ToText(levelId).value;
    var l := LevelModel.GetById(db.levels, key);
    if l.None? {
      var created := LevelModel.Create(db, key, LevelLabel(levelId));
      assert LabelIds(db.levels)[|db.levels| - 1] == key;
    }
    assert db.topics == topics;
  }

  // ---------------------------------------------------------------------
  // buildPayloadFromItem
  // ---------------------------------------------------------------------

  /** `buildPayloadFromItem`: a flashcard of the default topic, not premium,
      without media, phonetic or example pinyin, whose example meaning is
      the Vietnamese meaning. */
  function PayloadOf(item: WordItem, id: string): FlashcardModel.Payload
  {
    FlashcardModel.Payload(
      id := Str(id), topicId := Str(DefaultTopicId), levelId := item.levelId, isPremium := false,
      hanzi := item.hanzi, pinyin := item.pinyin, englishPhonetic := Null, imageUrl := Null,
      audioCn := Null, audioEn := Null, audioVi := Null,
      meaningEn := item.meaningEn, meaningVi := item.meaningVi,
      exampleHanzi := Or(item.exampleHanzi, Null), examplePinyin := Null,
      exampleMeaningVi := Or(item.meaningVi, Null))
  }

  /** The row an item is stored as: refused only for a missing level, hanzi
      or pinyin; otherwise of the default topic, free, with no media, with
      falsy example texts stored as NULL. */
  lemma PayloadRow(item: WordItem, id: string)
    ensures FlashcardModel.RowOf(id, PayloadOf(item, id)).Err? <==>
      item.levelId in {Undefined, Null} || item.hanzi in {Undefined, Null} || item.pinyin in {Undefined, Null}
    ensures FlashcardModel.RowOf(id, PayloadOf(item, id)).Ok? ==>
      var row := FlashcardModel.RowOf(id, PayloadOf(item, id)).value;
      && row.id == id && row.topicId == DefaultTopicId && row.isPremium == 0
      && Some(row.hanzi) == ToText(item.hanzi) && Some(row.levelId) == ToText(item.levelId)
      && row.englishPhonetic.None? && row.imageUrl.None?
      && row.audioCn.None? && row.audioEn.None? && row.audioVi.None? && row.examplePinyin.None?
      && row.meaningVi == ToText(item.meaningVi)
      && row.exampleMeaningVi == (if Truthy(item.meaningVi) then ToText(item.meaningVi) else None)
      && row.exampleHanzi == (if Truthy(item.exampleHanzi) then ToText(item.exampleHanzi) else None)
  {
    FlashcardModel.StoredPayloadReadsBack(id, PayloadOf(item, id));
  }

  // ---------------------------------------------------------------------
  // The import loop
  // ---------------------------------------------------------------------

  /** `SELECT id FROM flashcards WHERE hanzi = ? AND level_id = ?` finds a row. */
  predicate Exists(rows: seq<FlashcardRow>, hanzi: JsValue, levelId: JsValue)
  {
    exists k :: 0 <= k < |rows| && Some(rows[k].hanzi) == ToText(hanzi) && Some(rows[k].levelId) == ToText(levelId)
  }

  /** The level an item is filed under: its own if truthy, else the run's. */
  function EffectiveLevel(item: WordItem, levelId: JsValue): JsValue
  {
    Or(item.levelId, levelId)
  }

  /** One item of the loop: skipped (`None`) when its pair exists, else the
      row `Flashcard.create` inserts, or the error it throws. */
  function Step(rows: seq<FlashcardRow>, topics: seq<LabelRow>, levels: seq<LabelRow>,
                item: WordItem, id: string, levelId: JsValue): Result<Option<FlashcardRow>, SqlError>
  {
    var lv := EffectiveLevel(item, levelId);
    if Exists(rows, item.hanzi, lv) then Ok(None)
    else
      match FlashcardModel.RowOf(id, PayloadOf(item.(levelId := lv), id))
      case Err(e) => Err(e)
      case Ok(row) =>
        if id in FlashcardIds(rows) then Err(UniqueFailed("flashcards.id"))
        else if !FlashcardModel.References(row, topics, levels) then Err(ForeignKeyFailed)
        else Ok(Some(row))
  }

  /** The loop over `items` from table `rows` with the counters so far: the
      final table and counters, or the first error. */
  function Run(rows: seq<FlashcardRow>, topics: seq<LabelRow>, levels: seq<LabelRow>,
               items: seq<WordItem>, ids: seq<string>, levelId: JsValue, inserted: nat, skipped: nat)
    : Result<(seq<FlashcardRow>, nat, nat), SqlError>
    requires |ids| == |items|
    decreases |items|
  {
    if |items| == 0 then Ok((rows, inserted, skipped))
    else
      match Step(rows, topics, levels, items[0], ids[0], levelId)
      case Err(e) => Err(e)
      case Ok(None) => Run(rows, topics, levels, items[1..], ids[1..], levelId, inserted, skipped + 1)
      case Ok(Some(row)) => Run(rows + [row], topics, levels, items[1..], ids[1..], levelId, inserted + 1, skipped)
  }

  /** The run's default level: the first item's if it has a truthy one, else "HSK1". */
  function RunLevel(list: seq<WordItem>): (lv: JsValue)
    ensures Truthy(lv)
  {
    if |list| > 0 && Truthy(list[0].levelId) then list[0].levelId else Str("HSK1")
  }

  /** The `main` of the import: a non-array is refused before any write;
      otherwise the topic and level are ensured, then the items are
      inserted in one transaction. On success the counters are returned;
      on the first failure the transaction is rolled back, so no flashcard
      of this run remains (the topic and level created before it do). */
  method Import(db: Database, list: Option<seq<WordItem>>, ids: seq<string>) returns (r: Result<(nat, nat), string>)
    requires db.Valid()
    requires list.Some? ==> |ids| == |list.value|
    modifies db`topics, db`levels, db`flashcards
    ensures db.Valid()
    ensures list.None? ==>
      r == Err("Invalid JSON: expected an array") &&
      db.topics == old(db.topics) && db.levels == old(db.levels) && db.flashcards == old(db.flashcards)
    ensures list.Some? ==>
      && db.topics == (if DefaultTopicId in LabelIds(old(db.topics)) then old(db.topics)
                       else old(db.topics) + [LabelRow(DefaultTopicId, DefaultTopicLabel)])
      && (var key := ToText(RunLevel(list.value)).value;
          db.levels == if key in LabelIds(old(db.levels)) then old(db.levels)
                       else old(db.levels) + [LabelRow(key, LevelLabel(RunLevel(list.value)))])
      && DefaultTopicId in LabelIds(db.topics) && ToText(RunLevel(list.value)).value in LabelIds(db.levels)
      && match Run(old(db.flashcards), db.topics, db.levels, list.value, ids, RunLevel(list.value), 0, 0)
         case Err(e) => r == Err(SqlMessage(e)) && db.flashcards == old(db.flashcards)
         case Ok(outcome) => r == Ok((outcome.1, outcome.2)) && db.flashcards == outcome.0
  {
    if list.None? {
      return Err("Invalid JSON: expected an array");
    }
    var levelId := RunLevel(list.value);
    EnsureTopicAndLevel(db, levelId);
    var done := Transaction(db, list.value, ids, levelId);
    r := if done.Err? then Err(SqlMessage(done.error)) else Ok(done.value);
  }

  /** The transaction of the import: the loop over the items, committed
      when every item went through, rolled back at the first failure. */
  method Transaction(db: Database, items: seq<WordItem>, ids: seq<string>, levelId: JsValue)
    returns (r: Result<(nat, nat), SqlError>)
    requires db.Valid() && |ids| == |items|
    modifies db`flashcards
    ensures db.Valid()
    ensures match Run(old(db.flashcards), db.topics, db.levels, items, ids, levelId, 0, 0)
      case Err(e) => r == Err(e) && db.flashcards == old(db.flashcards)
      case Ok(outcome) => r == Ok((outcome.1, outcome.2)) && db.flashcards == outcome.0
  {
    var before := db.flashcards;
    var inserted: nat := 0;
    var skipped: nat := 0;
    for i := 0 to |items|
      invariant db.Valid()
      invariant Run(db.flashcards, db.topics, db.levels, items[i..], ids[i..], levelId, inserted, skipped)
             == Run(before, db.topics, db.levels, items, ids, levelId, 0, 0)
    {
      assert items[i..][1..] == items[i + 1..] && ids[i..][1..] == ids[i + 1..];
      var added := ImportOne(db, items[i], ids[i], levelId);
      if added.Err? {
        db.flashcards := before;
        return Err(added.error);
      }
      if added.value {
        inserted := inserted + 1;
      } else {
        skipped := skipped + 1;
      }
    }
    r := Ok((inserted, skipped));
  }

  /** One pass of the loop: look the item's (hanzi, level) pair up, and
      insert the item unless it is found. `Ok(true)` is an insertion,
      `Ok(false)` a skip. */
  method ImportOne(db: Database, item: WordItem, id: string, levelId: JsValue) returns (r: Result<bool, SqlError>)
    requires db.Valid()
    modifies db`flashcards
    ensures db.Valid()
    ensures match Step(old(db.flashcards), db.topics, db.levels, item, id, levelId)
      case Err(e) => r == Err(e) && db.flashcards == old(db.flashcards)
      case Ok(None) => r == Ok(false) && db.flashcards == old(db.flashcards)
      case Ok(Some(row)) => r == Ok(true) && db.flashcards == old(db.flashcards) + [row]
  {
    var lv := EffectiveLevel(item, levelId);
    if Exists(db.flashcards, item.hanzi, lv) {
      return Ok(false);
    }
    var made := FlashcardModel.Create(db, PayloadOf(item.(levelId := lv), id));
    if made.Err? {
      return Err(made.error);
    }
    return Ok(true);
  }

  /** A successful run accounts for every item, inserted or skipped, and
      only appends to the table: the rows before it are kept, one new row
      per inserted item. */
  lemma {:induction false} RunCounts(rows: seq<FlashcardRow>, topics: seq<LabelRow>, levels: seq<LabelRow>,
                                     items: seq<WordItem>, ids: seq<string>, levelId: JsValue, inserted: nat, skipped: nat)
    requires |ids| == |items|
    requires Run(rows, topics, levels, items, ids, levelId, inserted, skipped).Ok?
    ensures var out := Run(rows, topics, levels, items, ids, levelId, inserted, skipped).value;
      && out.1 + out.2 == inserted + skipped + |items|
      && out.1 >= inserted
      && |out.0| == |rows| + (out.1 - inserted)
      && out.0[..|rows|] == rows
    decreases |items|
  {
    if |items| > 0 {
      match Step(rows, topics, levels, items[0], ids[0], levelId)
      case Ok(None) =>
        RunCounts(rows, topics, levels, items[1..], ids[1..], levelId, inserted, skipped + 1);
      case Ok(Some(row)) =>
        RunCounts(rows + [row], topics, levels, items[1..], ids[1..], levelId, inserted + 1, skipped);
        var out := Run(rows, topics, levels, items, ids, levelId, inserted, skipped).value;
        assert out.0[..|rows| + 1] == rows + [row];
        assert out.0[..|rows|] == (rows + [row])[..|rows|];
    }
  }

  /** After a successful run every item's (hanzi, level) pair is in the
      table, and no new row repeats the pair of a row before it, whether
      that row was there already or inserted earlier in the same run. */
  lemma {:induction false} RunNoDuplicates(rows: seq<FlashcardRow>, topics: seq<LabelRow>, levels: seq<LabelRow>,
                                           items: seq<WordItem>, ids: seq<string>, levelId: JsValue, inserted: nat, skipped: nat)
    requires |ids| == |items|
    requires Run(rows, topics, levels, items, ids, levelId, inserted, skipped).Ok?
    ensures var out := Run(rows, topics, levels, items, ids, levelId, inserted, skipped).value.0;
      && (forall j :: 0 <= j < |items| ==> Exists(out, items[j].hanzi, EffectiveLevel(items[j], levelId)))
      && (forall j, k :: 0 <= j < k < |out| && |rows| <= k ==> (out[j].hanzi, out[j].levelId) != (out[k].hanzi, out[k].levelId))
    decreases |items|
  {
    if |items| > 0 {
      var lv := EffectiveLevel(items[0], levelId);
      match Step(rows, topics, levels, items[0], ids[0], levelId)
      case Ok(None) =>
        RunNoDuplicates(rows, topics, levels, items[1..], ids[1..], levelId, inserted, skipped + 1);
        RunCounts(rows, topics, levels, items[1..], ids[1..], levelId, inserted, skipped + 1);
        var out := Run(rows, topics, levels, items, ids, levelId, inserted, skipped).value.0;
        ExistsKept(rows, out, items[0].hanzi, lv);
        forall j | 0 < j < |items| ensures Exists(out, items[j].hanzi, EffectiveLevel(items[j], levelId)) {
          assert items[1..][j - 1] == items[j];
        }
      case Ok(Some(row)) =>
        var grown := rows + [row];
        RunNoDuplicates(grown, topics, levels, items[1..], ids[1..], levelId, inserted + 1, skipped);
        RunCounts(grown, topics, levels, items[1..], ids[1..], levelId, inserted + 1, skipped);
        var out := Run(rows, topics, levels, items, ids, levelId, inserted, skipped).value.0;
        NewRowMatches(rows, row, items[0], ids[0], lv);
        assert Exists(grown, items[0].hanzi, lv) by {
          assert grown[|rows|] == row;
        }
        ExistsKept(grown, out, items[0].hanzi, lv);
        forall j | 0 < j < |items| ensures Exists(out, items[j].hanzi, EffectiveLevel(items[j], levelId)) {
          assert items[1..][j - 1] == items[j];
        }
        forall j, k | 0 <= j < k < |out| && |rows| <= k
          ensures (out[j].hanzi, out[j].levelId) != (out[k].hanzi, out[k].levelId)
        {
          if k == |rows| {
            assert out[k] == grown[k] == row;
            assert out[j] == rows[j];
          }
        }
    }
  }

  /** The row inserted for an item carries the item's hanzi and level, and
      no row before it has that pair. */
  lemma NewRowMatches(rows: seq<FlashcardRow>, row: FlashcardRow, item: WordItem, id: string, lv: JsValue)
    requires !Exists(rows, item.hanzi, lv)
    requires FlashcardModel.RowOf(id, PayloadOf(item.(levelId := lv), id)) == Ok(row)
    ensures Some(row.hanzi) == ToText(item.hanzi) && Some(row.levelId) == ToText(lv)
    ensures forall j :: 0 <= j < |rows| ==> (rows[j].hanzi, rows[j].levelId) != (row.hanzi, row.levelId)
  {
    FlashcardModel.StoredPayloadReadsBack(id, PayloadOf(item.(levelId := lv), id));
  }

  /** A pair found in a table is found in any table that extends it. */
  lemma ExistsKept(rows: seq<FlashcardRow>, out: seq<FlashcardRow>, hanzi: JsValue, lv: JsValue)
    requires |rows| <= |out| && out[..|rows|] == rows && Exists(rows, hanzi, lv)
    ensures Exists(out, hanzi, lv)
  {
    var k :| 0 <= k < |rows| && Some(rows[k].hanzi) == ToText(hanzi) && Some(rows[k].levelId) == ToText(lv);
    assert out[k] == rows[k];
  }
}
