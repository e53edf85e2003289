/** The application constants: the HSK levels a flashcard may have and the
    topic that unclassified flashcards fall into. */
module Constants {
  import opened JsValues
  import opened Tables

  /** `ALLOWED_LEVELS`: (id, label) pairs, in order. */
  const AllowedLevels: seq<LabelRow> := [
    LabelRow("hsk1", "HSK 1"), LabelRow("hsk2", "HSK 2"), LabelRow("hsk3", "HSK 3"),
    LabelRow("hsk4", "HSK 4"), LabelRow("hsk5", "HSK 5"), LabelRow("hsk6", "HSK 6")]

  const DefaultTopicId: string := "0"
  const DefaultTopicLabel: string := "Chưa phân loại"

  /** `ALLOWED_LEVELS.find(l => l.id === levelId)`: the first entry whose id
      is strictly equal to the value (a string with that exact text). */
  function FindAllowedLevel(levelId: JsValue): (r: Option<LabelRow>)
    ensures r.Some? <==> exists k :: 0 <= k < |AllowedLevels| && levelId == Str(AllowedLevels[k].id)
    ensures r.Some? ==> r.value in AllowedLevels && levelId == Str(r.value.id)
  {
    FindIn(AllowedLevels, levelId)
  }

  function FindIn(levels: seq<LabelRow>, levelId: JsValue): (r: Option<LabelRow>)
    ensures r.Some? <==> exists k :: 0 <= k < |levels| && levelId == Str(levels[k].id)
    ensures r.Some? ==> r.value in levels && levelId == Str(r.value.id)
  {
    if |levels| == 0 then None
    else if levelId == Str(levels[0].id) then Some(levels[0])
    else
      var r := FindIn(levels[1..], levelId);
      assert forall k :: 0 < k < |levels| ==> levels[k] == levels[1..][k - 1];
      r
  }

  /** The match is exact: the upper-case ids the vocabulary import uses are
      not allowed levels, and neither is a number. */
  lemma OnlyExactIds()
    ensures FindAllowedLevel(Str("HSK1")) == None
    ensures FindAllowedLevel(Num(1)) == None
  {
  }
}
