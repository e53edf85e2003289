/** The `Level` repository: insert, look up, list with flashcard counts,
    relabel and delete rows of the `levels` table. */
module LevelModel {
  import opened JsValues
  import opened Tables
  import opened LabelTables

  /** `Level.getById`: the row, or `undefined` (None) for an unknown id. */
  function GetById(levels: seq<LabelRow>, id: string): (r: Option<LabelRow>)
    ensures r.Some? <==> id in LabelIds(levels)
    ensures r.Some? ==> r.value.id == id && r.value in levels
  {
    Find(levels, id)
  }

  /** `Level.getAll`: every level with the number of flashcards at that level, by label. */
  function GetAll(levels: seq<LabelRow>, flashcards: seq<FlashcardRow>): seq<LabelCount>
  {
    Listing(levels, FlashcardLevels(flashcards))
  }

  /** The listing holds each level once, ordered by label, with its
      flashcard count (0 for a level no flashcard uses). */
  lemma GetAllSpec(levels: seq<LabelRow>, flashcards: seq<FlashcardRow>)
    requires Distinct(LabelIds(levels))
    ensures var l := GetAll(levels, flashcards);
      && SortedByLabel(l) && Distinct(l) && |l| == |levels|
      && (forall t :: t in levels <==> LabelCount(t.id, t.labelText, CountOf(FlashcardLevels(flashcards), t.id)) in l)
      && (forall e :: e in l ==> (e.count == 0 <==> forall f :: f in flashcards ==> f.levelId != e.id))
  {
    var refs := FlashcardLevels(flashcards);
    ListingSpec(levels, refs);
    forall e | e in GetAll(levels, flashcards)
      ensures e.count == 0 <==> forall f :: f in flashcards ==> f.levelId != e.id
    {
      if e.id in refs {
        var i :| 0 <= i < |refs| && refs[i] == e.id;
        assert flashcards[i] in flashcards;
      }
    }
  }

  /** `Level.create`: inserts the row and returns it; an id already in use
      fails on the primary key and writes nothing. */
  method Create(db: Database, id: string, labelText: string) returns (r: Result<LabelRow, SqlError>)
    requires db.Valid()
    modifies db`levels
    ensures db.Valid()
    ensures id in LabelIds(old(db.levels)) ==> r == Err(UniqueFailed("levels.id")) && db.levels == old(db.levels)
    ensures id !in LabelIds(old(db.levels)) ==>
      r == Ok(LabelRow(id, labelText)) && db.levels == old(db.levels) + [LabelRow(id, labelText)]
    ensures r.Ok? ==> GetById(db.levels, id) == Some(LabelRow(id, labelText))
  {
    if id in LabelIds(db.levels) {
      return Err(UniqueFailed("levels.id"));
    }
    var row := LabelRow(id, labelText);
    ghost var before := db.levels;
    db.levels := db.levels + [row];
    assert LabelIds(db.levels) == LabelIds(before) + [id];
    FindAppended(before, row, id);
    r := Ok(GetById(db.levels, id).value);
  }

  /** `Level.update`: relabels that level only and returns the row read
      back, which is `undefined` (None) when the id is unknown. */
  method Update(db: Database, id: string, labelText: string) returns (r: Option<LabelRow>)
    requires db.Valid()
    modifies db`levels
    ensures db.Valid()
    ensures db.levels == Relabel(old(db.levels), id, labelText)
    ensures r == if id in LabelIds(old(db.levels)) then Some(LabelRow(id, labelText)) else None
  {
    ghost var before := db.levels;
    db.levels := Relabel(db.levels, id, labelText);
    FindRelabel(before, id, labelText, id);
    r := GetById(db.levels, id);
  }

  /** `Level.delete`: removes that level. A level that flashcards still
      reference cannot go (their foreign key has no ON DELETE action), so
      the statement fails and nothing changes. */
  method Delete(db: Database, id: string) returns (r: Result<(), SqlError>)
    requires db.Valid()
    modifies db`levels
    ensures db.Valid()
    ensures id in FlashcardLevels(db.flashcards) ==> r == Err(ForeignKeyFailed) && db.levels == old(db.levels)
    ensures id !in FlashcardLevels(db.flashcards) ==> r == Ok(()) && db.levels == Remove(old(db.levels), id)
    ensures r.Ok? ==> GetById(db.levels, id) == None
  {
    if id in FlashcardLevels(db.flashcards) {
      return Err(ForeignKeyFailed);
    }
    forall f | f in db.flashcards ensures f.levelId != id {
      var i :| 0 <= i < |db.flashcards| && db.flashcards[i] == f;
      assert FlashcardLevels(db.flashcards)[i] == f.levelId;
    }
    RemoveIds(db.levels, id);
    db.levels := Remove(db.levels, id);
    r := Ok(());
  }
}
