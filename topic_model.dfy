/** The `Topic` repository: insert, look up, list with flashcard counts,
    relabel and delete rows of the `topics` table. */
module TopicModel {
  import opened JsValues
  import opened Tables
  import opened LabelTables

  /** `Topic.getById`: the row, or `undefined` (None) for an unknown id. */
  function GetById(topics: seq<LabelRow>, id: string): (r: Option<LabelRow>)
    ensures r.Some? <==> id in LabelIds(topics)
    ensures r.Some? ==> r.value.id == id && r.value in topics
  {
    Find(topics, id)
  }

  /** `Topic.getAll`: every topic with the number of flashcards filed under it, by label. */
  function GetAll(topics: seq<LabelRow>, flashcards: seq<FlashcardRow>): seq<LabelCount>
  {
    Listing(topics, FlashcardTopics(flashcards))
  }

  /** The listing holds each topic once, ordered by label, with its
      flashcard count (0 for a topic no flashcard uses). */
  lemma GetAllSpec(topics: seq<LabelRow>, flashcards: seq<FlashcardRow>)
    requires Distinct(LabelIds(topics))
    ensures var l := GetAll(topics, flashcards);
      && SortedByLabel(l) && Distinct(l) && |l| == |topics|
      && (forall t :: t in topics <==> LabelCount(t.id, t.labelText, CountOf(FlashcardTopics(flashcards), t.id)) in l)
      && (forall e :: e in l ==> (e.count == 0 <==> forall f :: f in flashcards ==> f.topicId != e.id))
  {
    var refs := FlashcardTopics(flashcards);
    ListingSpec(topics, refs);
    forall e | e in GetAll(topics, flashcards)
      ensures e.count == 0 <==> forall f :: f in flashcards ==> f.topicId != e.id
    {
      if e.id in refs {
        var i :| 0 <= i < |refs| && refs[i] == e.id;
        assert flashcards[i] in flashcards;
      }
    }
  }

  /** `Topic.create`: inserts the row and returns it; an id already in use
      fails on the primary key and writes nothing. */
  method Create(db: Database, id: string, labelText: string) returns (r: Result<LabelRow, SqlError>)
    requires db.Valid()
    modifies db`topics
    ensures db.Valid()
    ensures id in LabelIds(old(db.topics)) ==> r == Err(UniqueFailed("topics.id")) && db.topics == old(db.topics)
    ensures id !in LabelIds(old(db.topics)) ==>
      r == Ok(LabelRow(id, labelText)) && db.topics == old(db.topics) + [LabelRow(id, labelText)]
    ensures r.Ok? ==> GetById(db.topics, id) == Some(LabelRow(id, labelText))
  {
    if id in LabelIds(db.topics) {
      return Err(UniqueFailed("topics.id"));
    }
    var row := LabelRow(id, labelText);
    ghost var before := db.topics;
    db.topics := db.topics + [row];
    assert LabelIds(db.topics) == LabelIds(before) + [id];
    FindAppended(before, row, id);
    r := Ok(GetById(db.topics, id).value);
  }

  /** `Topic.update`: relabels that topic only and returns the row read
      back, which is `undefined` (None) when the id is unknown. */
  method Update(db: Database, id: string, labelText: string) returns (r: Option<LabelRow>)
    requires db.Valid()
    modifies db`topics
    ensures db.Valid()
    ensures db.topics == Relabel(old(db.topics), id, labelText)
    ensures r == if id in LabelIds(old(db.topics)) then Some(LabelRow(id, labelText)) else None
  {
    ghost var before := db.topics;
    db.topics := Relabel(db.topics, id, labelText);
    FindRelabel(before, id, labelText, id);
    r := GetById(db.topics, id);
  }

  /** `Topic.delete`: removes that topic. A topic that flashcards still
      reference cannot go (their foreign key has no ON DELETE action), so
      the statement fails and nothing changes. */
  method Delete(db: Database, id: string) returns (r: Result<(), SqlError>)
    requires db.Valid()
    modifies db`topics
    ensures db.Valid()
    ensures id in FlashcardTopics(db.flashcards) ==> r == Err(ForeignKeyFailed) && db.topics == old(db.topics)
    ensures id !in FlashcardTopics(db.flashcards) ==> r == Ok(()) && db.topics == Remove(old(db.topics), id)
    ensures r.Ok? ==> GetById(db.topics, id) == None
  {
    if id in FlashcardTopics(db.flashcards) {
      return Err(ForeignKeyFailed);
    }
    forall f | f in db.flashcards ensures f.topicId != id {
      var i :| 0 <= i < |db.flashcards| && db.flashcards[i] == f;
      assert FlashcardTopics(db.flashcards)[i] == f.topicId;
    }
    RemoveIds(db.topics, id);
    db.topics := Remove(db.topics, id);
    r := Ok(());
  }

  /** A created topic reads back with its label (Topic.test.js, "create"). */
  lemma CreateThenGet(topics: seq<LabelRow>, id: string, labelText: string)
    requires id !in LabelIds(topics)
    ensures GetById(topics + [LabelRow(id, labelText)], id) == Some(LabelRow(id, labelText))
  {
    FindAppended(topics, LabelRow(id, labelText), id);
  }

  /** Relabelling one topic leaves every other topic as it was. */
  lemma UpdateOnlyThat(topics: seq<LabelRow>, id: string, labelText: string, other: string)
    requires other != id
    ensures GetById(Relabel(topics, id, labelText), other) == GetById(topics, other)
  {
    FindRelabel(topics, id, labelText, other);
  }

  /** After a delete the topic is gone and every other topic is still there. */
  lemma DeleteThenGet(topics: seq<LabelRow>, id: string, other: string)
    ensures GetById(Remove(topics, id), id) == None
    ensures other != id ==> GetById(Remove(topics, id), other) == GetById(topics, other)
  {
    FindRemoved(topics, id, other);
  }
}
