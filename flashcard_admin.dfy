/** The admin flashcard controller: coercing and normalising request bodies,
    the required-field check, making sure a flashcard's topic and level
    exist, and the order of steps in `create` and the merge in `update`.
    The image upload is an oracle outcome and the fresh UUID a parameter. */
module FlashcardAdmin {
  import opened Strings
  import opened JsValues
  import opened Tables
  import opened Constants
  import Paging
  import TopicModel
  import LevelModel
  import FlashcardModel

  // ---------------------------------------------------------------------
  // toBoolean
  // ---------------------------------------------------------------------

  /** `toBoolean(value, defaultValue)`. */
  function ToBoolean(v: JsValue, default: bool): (b: bool)
  {
    match v
    case Undefined => default
    case Null => default
    case Bool(x) => x
    case Num(n) => n != 0
    case Str(s) =>
      var w := Lower(Trim(s));
      if w == "true" || w == "1" || w == "yes" then true
      else if w == "false" || w == "0" || w == "no" || w == "" then false
      else s != ""
  }

  /** The coercion, case by case: the default for a missing value, booleans
      as they are, a number is true unless 0, and a string is false exactly
      when, trimmed and lower-cased, it is "false", "0", "no" or empty. */
  lemma ToBooleanSpec(v: JsValue, default: bool)
    ensures v.Undefined? || v.Null? ==> ToBoolean(v, default) == default
    ensures v.Bool? ==> ToBoolean(v, default) == v.b
    ensures v.Num? ==> ToBoolean(v, default) == (v.n != 0)
    ensures v.Str? ==> (!ToBoolean(v, default) <==> Lower(Trim(v.s)) in {"false", "0", "no", ""})
  {
    if v.Str? {
      var w := Lower(Trim(v.s));
      Coerce(v.s, w, default);
      if w == "true" || w == "1" || w == "yes" {
        assert w !in {"false", "0", "no", ""};
      } else if w == "false" || w == "0" || w == "no" || w == "" {
        assert w in {"false", "0", "no", ""};
      } else {
        assert w !in {"false", "0", "no", ""};
        assert |Trim(v.s)| > 0;
      }
    }
  }

  /** A string coerces by the table on its trimmed lower-case form `w`. */
  lemma Coerce(s: string, w: string, default: bool)
    requires Lower(Trim(s)) == w
    ensures ToBoolean(Str(s), default) ==
      if w == "true" || w == "1" || w == "yes" then true
      else if w == "false" || w == "0" || w == "no" || w == "" then false
      else s != ""
  {
  }

  /** A string of nothing but whitespace counts as false, whatever the default. */
  lemma ToBooleanBlank(s: string, default: bool)
    requires forall k :: 0 <= k < |s| ==> IsJsWhitespace(s[k])
    ensures !ToBoolean(Str(s), default)
  {
    assert Trim(s) == [] by {
      var i :| TrimmedAt(s, Trim(s), i);
    }
    Coerce(s, Lower(Trim(s)), default);
  }

  /** `t` sits at `i` in `s` with only whitespace around it, and has none at its ends. */
  lemma TrimOf(s: string, t: string, i: nat)
    requires i + |t| <= |s| && s[i..i + |t|] == t && |t| > 0
    requires !IsJsWhitespace(t[0]) && !IsJsWhitespace(t[|t| - 1])
    requires forall k :: 0 <= k < i ==> IsJsWhitespace(s[k])
    requires forall k :: i + |t| <= k < |s| ==> IsJsWhitespace(s[k])
    ensures Trim(s) == t
  {
    var a := s[i..];
    assert TrimStart(s) == a by {
      TrimStartAt(s, i);
    }
    assert TrimEnd(a) == t by {
      assert a[..|t|] == t;
      forall k | |t| <= k < |a| ensures IsJsWhitespace(a[k]) {
        assert a[k] == s[i + k];
      }
      TrimEndAt(a, |t|);
    }
    assert Trim(s) == TrimEnd(TrimStart(s));
  }

  lemma {:induction false} TrimStartAt(s: string, i: nat)
    requires i < |s| && !IsJsWhitespace(s[i])
    requires forall k :: 0 <= k < i ==> IsJsWhitespace(s[k])
    ensures TrimStart(s) == s[i..]
  {
    if i > 0 {
      TrimStartAt(s[1..], i - 1);
      assert s[1..][i - 1..] == s[i..];
    }
  }

  lemma {:induction false} TrimEndAt(s: string, n: nat)
    requires 0 < n <= |s| && !IsJsWhitespace(s[n - 1])
    requires forall k :: n <= k < |s| ==> IsJsWhitespace(s[k])
    ensures TrimEnd(s) == s[..n]
    decreases |s|
  {
    if |s| > n {
      TrimEndAt(s[..|s| - 1], n);
      assert s[..|s| - 1][..n] == s[..n];
    }
  }

  // ---------------------------------------------------------------------
  // normalizePayload / validatePayload
  // ---------------------------------------------------------------------

  /** A request body: a plain object; a missing key reads as `undefined`. */
  type Body = map<string, JsValue>

  function Get(body: Body, key: string): JsValue
  {
    if key in body then body[key] else Undefined
  }

  /** `normalizePayload(body, includeId)`. Each field takes its camelCase key
      if truthy, else its snake_case key; `hanzi` and `pinyin` have only the
      one key; the topic falls back to the default topic; `id` is the body's
      if truthy, else the fresh UUID; without `includeId` there is no id. */
  function NormalizePayload(body: Body, includeId: bool, freshId: string): (p: FlashcardModel.Payload)
  {
    FlashcardModel.Payload(
      id := if includeId then Or(Get(body, "id"), Str(freshId)) else Undefined,
      topicId := Or(Or(Get(body, "topicId"), Get(body, "topic_id")), Str(DefaultTopicId)),
      levelId := Or(Get(body, "levelId"), Get(body, "level_id")),
      isPremium := ToBoolean(if Get(body, "isPremium") != Undefined then Get(body, "isPremium") else Get(body, "is_premium"), false),
      hanzi := Get(body, "hanzi"),
      pinyin := Get(body, "pinyin"),
      englishPhonetic := Or(Get(body, "englishPhonetic"), Get(body, "english_phonetic")),
      imageUrl := Or(Get(body, "imageUrl"), Get(body, "image_url")),
      audioCn := Or(Get(body, "audioCn"), Get(body, "audio_cn")),
      audioEn := Or(Get(body, "audioEn"), Get(body, "audio_en")),
      audioVi := Or(Get(body, "audioVi"), Get(body, "audio_vi")),
      meaningEn := Or(Get(body, "meaningEn"), Get(body, "meaning_en")),
      meaningVi := Or(Get(body, "meaningVi"), Get(body, "meaning_vi")),
      exampleHanzi := Or(Get(body, "exampleHanzi"), Get(body, "example_hanzi")),
      examplePinyin := Or(Get(body, "examplePinyin"), Get(body, "example_pinyin")),
      exampleMeaningVi := Or(Get(body, "exampleMeaningVi"), Get(body, "example_meaning_vi")))
  }

  /** `v` is `camel` when that is truthy, else `snake` when that is truthy,
      else `otherwise`. */
  predicate FirstTruthy(v: JsValue, camel: JsValue, snake: JsValue, otherwise: JsValue)
  {
    if Truthy(camel) then v == camel else if Truthy(snake) then v == snake else v == otherwise
  }

  /** What normalisation promises: the topic is never empty and defaults to
      `'0'`; `isPremium` follows `isPremium` whenever that key is defined
      (even when false) and is false with neither key; each optional field
      prefers a truthy camelCase value; an id is always there when asked for. */
  lemma NormalizeSpec(body: Body, includeId: bool, freshId: string)
    requires freshId != ""
    ensures var p := NormalizePayload(body, includeId, freshId);
      && Truthy(p.topicId)
      && FirstTruthy(p.topicId, Get(body, "topicId"), Get(body, "topic_id"), Str(DefaultTopicId))
      && FirstTruthy(p.levelId, Get(body, "levelId"), Get(body, "level_id"), Get(body, "level_id"))
      && (Get(body, "isPremium") != Undefined ==> p.isPremium == ToBoolean(Get(body, "isPremium"), false))
      && (Get(body, "isPremium") == Undefined ==> p.isPremium == ToBoolean(Get(body, "is_premium"), false))
      && (Get(body, "isPremium") == Undefined && Get(body, "is_premium") == Undefined ==> !p.isPremium)
      && FirstTruthy(p.meaningEn, Get(body, "meaningEn"), Get(body, "meaning_en"), Get(body, "meaning_en"))
      && FirstTruthy(p.imageUrl, Get(body, "imageUrl"), Get(body, "image_url"), Get(body, "image_url"))
      && (includeId ==> Truthy(p.id) && FirstTruthy(p.id, Get(body, "id"), Str(freshId), Str(freshId)))
      && (!includeId ==> p.id == Undefined)
  {
  }

  /** The fields `create` requires, in the order they are reported. */
  const Required: seq<string> := ["levelId", "hanzi", "pinyin", "meaningEn", "meaningVi"]

  /** `payload[field]` for a required field. */
  function RequiredValue(p: FlashcardModel.Payload, field: string): JsValue
  {
    match field
    case "levelId" => p.levelId
    case "hanzi" => p.hanzi
    case "pinyin" => p.pinyin
    case "meaningEn" => p.meaningEn
    case "meaningVi" => p.meaningVi
    case _ => Undefined
  }

  /** `validatePayload`: the required fields whose value is falsy, or null when there are none. */
  function ValidatePayload(p: FlashcardModel.Payload): (r: Option<seq<string>>)
    ensures r.None? <==> forall f :: f in Required ==> Truthy(RequiredValue(p, f))
    ensures r.Some? ==> |r.value| > 0 && forall f :: f in r.value <==> f in Required && !Truthy(RequiredValue(p, f))
  {
    var missing := Missing(p, Required);
    if |missing| > 0 then
      assert missing[0] in missing;
      Some(missing)
    else
      assert forall f :: f in Required ==> Truthy(RequiredValue(p, f));
      None
  }

  /** `fields.filter(field => !payload[field])`. */
  function Missing(p: FlashcardModel.Payload, fields: seq<string>): (r: seq<string>)
    ensures forall f :: f in r <==> f in fields && !Truthy(RequiredValue(p, f))
  {
    if |fields| == 0 then []
    else IfMissing(RequiredValue(p, fields[0]), fields[0]) + Missing(p, fields[1..])
  }

  function IfMissing(v: JsValue, field: string): seq<string>
  {
    if Truthy(v) then [] else [field]
  }

  /** The missing fields come in the fixed order level, hanzi, pinyin,
      English meaning, Vietnamese meaning. */
  lemma ValidateOrder(p: FlashcardModel.Payload)
    ensures var m := IfMissing(p.levelId, "levelId") + (IfMissing(p.hanzi, "hanzi") + (IfMissing(p.pinyin, "pinyin")
                   + (IfMissing(p.meaningEn, "meaningEn") + IfMissing(p.meaningVi, "meaningVi"))));
      ValidatePayload(p) == if m == [] then None else Some(m)
  {
    var r := Required;
    assert Missing(p, ["meaningVi"]) == IfMissing(p.meaningVi, "meaningVi") by {
      assert ["meaningVi"][1..] == [];
    }
    assert Missing(p, ["meaningEn", "meaningVi"]) == IfMissing(p.meaningEn, "meaningEn") + Missing(p, ["meaningVi"]) by {
      assert ["meaningEn", "meaningVi"][1..] == ["meaningVi"];
    }
    assert Missing(p, ["pinyin", "meaningEn", "meaningVi"]) == IfMissing(p.pinyin, "pinyin") + Missing(p, ["meaningEn", "meaningVi"]) by {
      assert ["pinyin", "meaningEn", "meaningVi"][1..] == ["meaningEn", "meaningVi"];
    }
    assert Missing(p, r[1..]) == IfMissing(p.hanzi, "hanzi") + Missing(p, ["pinyin", "meaningEn", "meaningVi"]) by {
      assert r[1..][1..] == ["pinyin", "meaningEn", "meaningVi"];
    }
    assert Missing(p, r) == IfMissing(p.levelId, "levelId") + Missing(p, r[1..]);
    var m := IfMissing(p.levelId, "levelId") + (IfMissing(p.hanzi, "hanzi") + (IfMissing(p.pinyin, "pinyin")
           + (IfMissing(p.meaningEn, "meaningEn") + IfMissing(p.meaningVi, "meaningVi"))));
    if m == [] {
      assert ValidatePayload(p) == None;
    } else {
      assert ValidatePayload(p) == Some(m);
    }
  }

  // ---------------------------------------------------------------------
  // ensureTopic / ensureLevel
  // ---------------------------------------------------------------------

  /** `ensureTopic(topicId)`: the default topic is created when absent; any
      other topic must already exist (looked up by its text, as SQLite
      compares a bound value with a TEXT column), else it throws. */
  method EnsureTopic(db: Database, topicId: JsValue) returns (r: Result<(), string>)
    requires db.Valid()
    modifies db`topics
    ensures db.Valid()
    ensures IsString(topicId, DefaultTopicId) ==>
      r == Ok(()) &&
      db.topics == if DefaultTopicId in LabelIds(old(db.topics)) then old(db.topics)
                   else old(db.topics) + [LabelRow(DefaultTopicId, DefaultTopicLabel)]
    ensures !IsString(topicId, DefaultTopicId) ==>
      db.topics == old(db.topics) &&
      if ToText(topicId).Some? && ToText(topicId).value in LabelIds(old(db.topics)) then r == Ok(())
      else r == Err("Topic not found: " + JsString(topicId))
    ensures r.Ok? ==> ToText(topicId).Some? && ToText(topicId).value in LabelIds(db.topics)
  {
    if IsString(topicId, DefaultTopicId) {
      var existing := TopicModel.GetById(db.topics, DefaultTopicId);
      if existing.None? {
        var created := TopicModel.Create(db, DefaultTopicId, DefaultTopicLabel);
        assert LabelIds(db.topics)[|db.topics| - 1] == DefaultTopicId;
      }
      return Ok(());
    }
    var key := ToText(topicId);
    if key.None? || TopicModel.GetById(db.topics, key.value).None? {
      return Err("Topic not found: " + JsString(topicId));
    }
    r := Ok(());
  }

  /** `ensureLevel(levelId)`: a value that is not one of the allowed level
      ids throws, writing nothing; an allowed level that is absent is
      created with its label. */
  method EnsureLevel(db: Database, levelId: JsValue) returns (r: Result<(), string>)
    requires db.Valid()
    modifies db`levels
    ensures db.Valid()
    ensures FindAllowedLevel(levelId).None? ==>
      r == Err("Invalid level: " + JsString(levelId)) && db.levels == old(db.levels)
    ensures FindAllowedLevel(levelId).Some? ==>
      var meta := FindAllowedLevel(levelId).value;
      r == Ok(()) &&
      db.levels == if meta.id in LabelIds(old(db.levels)) then old(db.levels) else old(db.levels) + [meta]
    ensures r.Ok? ==> levelId.Str? && levelId.s in LabelIds(db.levels)
  {
    var meta := FindAllowedLevel(levelId);
    if meta.None? {
      return Err("Invalid level: " + JsString(levelId));
    }
    var level := LevelModel.GetById(db.levels, meta.value.id);
    if level.None? {
      var created := LevelModel.Create(db, meta.value.id, meta.value.labelText);
      assert LabelIds(db.levels)[|db.levels| - 1] == meta.value.id;
    }
    r := Ok(());
  }

  // ---------------------------------------------------------------------
  // create / getAll / update
  // ---------------------------------------------------------------------

  /** What the image upload did: there was no file, or the file was stored
      at a URL, or the upload threw with a message. */
  datatype Upload = NoFile | Uploaded(url: string) | UploadFailed(message: string)

  /** The response the controller sends. */
  datatype Response =
    | Created(card: FlashcardModel.Flashcard)     // 201
    | Json(card: FlashcardModel.Flashcard)        // 200
    | MissingFields(missing: seq<string>)         // 400 with the missing list
    | BadRequest(message: string)                 // 400 with the error message
    | NotFound                                    // 404

  /** The topic check fails: a topic other than the default that is not in the table. */
  predicate TopicMissing(topics: seq<LabelRow>, topicId: JsValue)
  {
    !IsString(topicId, DefaultTopicId) && !(ToText(topicId).Some? && ToText(topicId).value in LabelIds(topics))
  }

  /** `create`: normalise (with `freshId` as the UUID), validate, then go
      on as `CreateValid`. A validation failure writes nothing. */
  method Create(db: Database, body: Body, freshId: string, upload: Upload) returns (r: Response)
    requires db.Valid() && freshId != ""
    modifies db`topics, db`levels, db`flashcards
    ensures db.Valid()
    ensures var p := NormalizePayload(body, true, freshId);
      ValidatePayload(p).Some? ==>
        r == MissingFields(ValidatePayload(p).value) &&
        db.topics == old(db.topics) && db.levels == old(db.levels) && db.flashcards == old(db.flashcards)
    ensures var p := NormalizePayload(body, true, freshId);
      ValidatePayload(p).None? ==> CreateOutcome(old(db.topics), old(db.levels), old(db.flashcards), db.topics, db.levels, db.flashcards, p, upload, r)
  {
    var payload := NormalizePayload(body, true, freshId);
    var missing := ValidatePayload(payload);
    if missing.Some? {
      return MissingFields(missing.value);
    }
    NormalizeSpec(body, true, freshId);
    r := CreateValid(db, payload, upload);
  }

  /** The topics after a successful `ensureTopic`: the default topic is
      added when it is asked for and absent. */
  function TopicsAfter(topics: seq<LabelRow>, topicId: JsValue): (r: seq<LabelRow>)
    ensures IsString(topicId, DefaultTopicId) ==> DefaultTopicId in LabelIds(r)
    ensures forall x :: x in topics ==> x in r
  {
    if IsString(topicId, DefaultTopicId) && DefaultTopicId !in LabelIds(topics) then
      var r := topics + [LabelRow(DefaultTopicId, DefaultTopicLabel)];
      assert LabelIds(r)[|topics|] == DefaultTopicId;
      r
    else topics
  }

  /** The levels after a successful `ensureLevel` of the allowed level `meta`. */
  function LevelsAfter(levels: seq<LabelRow>, meta: LabelRow): (r: seq<LabelRow>)
    ensures meta.id in LabelIds(r)
    ensures forall x :: x in levels ==> x in r
  {
    if meta.id in LabelIds(levels) then levels
    else
      var r := levels + [meta];
      assert LabelIds(r)[|levels|] == meta.id;
      r
  }

  /** The payload `create` inserts: an uploaded file's URL replaces the
      body's image URL. */
  function WithUpload(p: FlashcardModel.Payload, upload: Upload): (q: FlashcardModel.Payload)
    ensures q.id == p.id && q.topicId == p.topicId && q.levelId == p.levelId
    ensures ToText(q.imageUrl) == if upload.Uploaded? then Some(upload.url) else ToText(p.imageUrl)
  {
    match upload
    case Uploaded(url) => p.(imageUrl := Str(url))
    case _ => p
  }

  /** What the repository insert answers, as `FlashcardModel.Create`
      decides it: its SQL error becomes a 400 with the error's message and
      leaves the cards unchanged, and a stored row becomes 201 with the
      row read back. */
  ghost predicate InsertOutcome(cards0: seq<FlashcardRow>, cards: seq<FlashcardRow>,
                                topics: seq<LabelRow>, levels: seq<LabelRow>,
                                p: FlashcardModel.Payload, r: Response)
    requires ToText(p.id).Some?
  {
    var id := ToText(p.id).value;
    match FlashcardModel.RowOf(id, p)
    case Err(e) => r == BadRequest(SqlMessage(e)) && cards == cards0
    case Ok(row) =>
      if id in FlashcardIds(cards0) then
        r == BadRequest(SqlMessage(UniqueFailed("flashcards.id"))) && cards == cards0
      else if !FlashcardModel.References(row, topics, levels) then
        r == BadRequest(SqlMessage(ForeignKeyFailed)) && cards == cards0
      else
        r == Created(FlashcardModel.Format(row)) && cards == cards0 + [row]
  }

  /** What `create` does with a valid payload, step by step: a failing step
      answers 400 and skips the steps after it, while the steps before it
      stay done (the default topic may have been created before a level
      check fails). The uploaded URL replaces the body's image URL, and the
      card is created only if every step succeeds. */
  ghost predicate CreateOutcome(topics0: seq<LabelRow>, levels0: seq<LabelRow>, cards0: seq<FlashcardRow>,
                                topics: seq<LabelRow>, levels: seq<LabelRow>, cards: seq<FlashcardRow>,
                                p: FlashcardModel.Payload, upload: Upload, r: Response)
  {
    && (TopicMissing(topics0, p.topicId) ==>
          r == BadRequest("Topic not found: " + JsString(p.topicId)) &&
          topics == topics0 && levels == levels0 && cards == cards0)
    && (!TopicMissing(topics0, p.topicId) && FindAllowedLevel(p.levelId).None? ==>
          r == BadRequest("Invalid level: " + JsString(p.levelId)) &&
          topics == TopicsAfter(topics0, p.topicId) && levels == levels0 && cards == cards0)
    && (!TopicMissing(topics0, p.topicId) && FindAllowedLevel(p.levelId).Some? ==>
          && topics == TopicsAfter(topics0, p.topicId)
          && levels == LevelsAfter(levels0, FindAllowedLevel(p.levelId).value)
          && (upload.UploadFailed? ==> r == BadRequest(upload.message) && cards == cards0)
          && (!upload.UploadFailed? ==>
                ToText(p.id).Some? && InsertOutcome(cards0, cards, topics, levels, WithUpload(p, upload), r)))
    && (!r.Created? ==> cards == cards0)
    && (r.Created? ==>
          && FindAllowedLevel(p.levelId).Some?
          && cards == cards0 + [FlashcardModel.Flatten(r.card)]
          && FlashcardModel.GetById(cards, r.card.id) == Some(r.card)
          && Some(r.card.id) == ToText(p.id)
          && r.card.topic in LabelIds(topics) && r.card.level in LabelIds(levels)
          && r.card.content.imageUrl == (if upload.Uploaded? then Some(upload.url) else ToText(p.imageUrl))
          && r.card.isPremium == p.isPremium)
  }

  /** `create` answers 201 exactly when the topic is there (or is the
      default), the level is allowed, the upload did not fail, the row has
      its NOT NULL columns and its id is new: once the topic and level steps
      pass, the foreign keys always hold. */
  lemma {:induction false} CreateSucceeds(topics0: seq<LabelRow>, levels0: seq<LabelRow>, cards0: seq<FlashcardRow>,
                                          topics: seq<LabelRow>, levels: seq<LabelRow>, cards: seq<FlashcardRow>,
                                          p: FlashcardModel.Payload, upload: Upload, r: Response)
    requires ToText(p.id).Some?
    requires CreateOutcome(topics0, levels0, cards0, topics, levels, cards, p, upload, r)
    ensures r.Created? <==>
      && !TopicMissing(topics0, p.topicId) && FindAllowedLevel(p.levelId).Some? && !upload.UploadFailed?
      && FlashcardModel.RowOf(ToText(p.id).value, WithUpload(p, upload)).Ok?
      && ToText(p.id).value !in FlashcardIds(cards0)
    ensures r.Created? ==>
      r.card == FlashcardModel.Format(FlashcardModel.RowOf(ToText(p.id).value, WithUpload(p, upload)).value)
  {
    var id := ToText(p.id).value;
    var q := WithUpload(p, upload);
    if TopicMissing(topics0, p.topicId) || FindAllowedLevel(p.levelId).None? || upload.UploadFailed? {
      assert !r.Created?;
      return;
    }
    assert InsertOutcome(cards0, cards, topics, levels, q, r);
    var made := FlashcardModel.RowOf(id, q);
    if made.Err? || id in FlashcardIds(cards0) {
      assert !r.Created?;
      return;
    }
    var row := made.value;
    assert Some(row.topicId) == ToText(p.topicId) && Some(row.levelId) == ToText(p.levelId) by {
      FlashcardModel.RowOfKeys(id, q);
    }
    assert row.topicId in LabelIds(topics) by {
      if IsString(p.topicId, DefaultTopicId) {
        assert ToText(p.topicId) == Some(DefaultTopicId);
      } else {
        LabelIdsKept(topics0, topics);
      }
    }
    assert row.levelId in LabelIds(levels) by {
      FindAllowedLevelText(p.levelId);
    }
    assert r == Created(FlashcardModel.Format(row));
  }

  /** A payload that passed validation, with its defaulted topic, always
      has the four NOT NULL columns, whatever the upload did to the image:
      after validation, `create` answers 201 exactly when the topic and
      level steps and the upload pass and the id is new. */
  lemma ValidPayloadStores(p: FlashcardModel.Payload, upload: Upload)
    requires ValidatePayload(p).None? && Truthy(p.topicId) && ToText(p.id).Some?
    ensures FlashcardModel.RowOf(ToText(p.id).value, WithUpload(p, upload)).Ok?
  {
    assert "levelId" in Required && "hanzi" in Required && "pinyin" in Required;
    assert Truthy(RequiredValue(p, "levelId")) && Truthy(RequiredValue(p, "hanzi")) && Truthy(RequiredValue(p, "pinyin"));
    FlashcardModel.StoredPayloadReadsBack(ToText(p.id).value, WithUpload(p, upload));
  }

  /** The ids of a table stay present in any table holding all its rows. */
  lemma LabelIdsKept(a: seq<LabelRow>, b: seq<LabelRow>)
    requires forall x :: x in a ==> x in b
    ensures forall x :: x in LabelIds(a) ==> x in LabelIds(b)
  {
    forall x | x in LabelIds(a) ensures x in LabelIds(b) {
      var i :| 0 <= i < |a| && LabelIds(a)[i] == x;
      assert a[i] in b;
      var j :| 0 <= j < |b| && b[j] == a[i];
      assert LabelIds(b)[j] == x;
    }
  }

  /** An allowed level is stored under the text of the value that named it. */
  lemma FindAllowedLevelText(levelId: JsValue)
    requires FindAllowedLevel(levelId).Some?
    ensures ToText(levelId) == Some(FindAllowedLevel(levelId).value.id)
  {
  }

  /** `create` after validation: make sure the topic and then the level
      exist, upload the image if there is a file, then insert. */
  method CreateValid(db: Database, p: FlashcardModel.Payload, upload: Upload) returns (r: Response)
    requires db.Valid() && ToText(p.id).Some?
    modifies db`topics, db`levels, db`flashcards
    ensures db.Valid()
    ensures CreateOutcome(old(db.topics), old(db.levels), old(db.flashcards), db.topics, db.levels, db.flashcards, p, upload, r)
  {
    var payload := p;
    var topicDone := EnsureTopic(db, payload.topicId);
    if topicDone.Err? {
      return BadRequest(topicDone.error);
    }
    var levelDone := EnsureLevel(db, payload.levelId);
    if levelDone.Err? {
      return BadRequest(levelDone.error);
    }
    match upload {
      case NoFile =>
      case Uploaded(url) =>
        payload := payload.(imageUrl := Str(url));
      case UploadFailed(message) =>
        return BadRequest(message);
    }
    assert payload == WithUpload(p, upload);
    ghost var topics0, levels0, cards0 := old(db.topics), old(db.levels), old(db.flashcards);
    assert db.topics == TopicsAfter(topics0, p.topicId) && db.levels == LevelsAfter(levels0, FindAllowedLevel(p.levelId).value);
    r := Insert(db, payload);
    InsertCompletesCreate(topics0, levels0, cards0, db.topics, db.levels, db.flashcards, p, upload, r);
  }

  /** The insert's outcome, after the topic and level steps passed and the
      upload did not fail, is the outcome of `create`. */
  lemma InsertCompletesCreate(topics0: seq<LabelRow>, levels0: seq<LabelRow>, cards0: seq<FlashcardRow>,
                              topics: seq<LabelRow>, levels: seq<LabelRow>, cards: seq<FlashcardRow>,
                              p: FlashcardModel.Payload, upload: Upload, r: Response)
    requires !TopicMissing(topics0, p.topicId) && FindAllowedLevel(p.levelId).Some? && !upload.UploadFailed?
    requires ToText(p.id).Some?
    requires topics == TopicsAfter(topics0, p.topicId)
    requires levels == LevelsAfter(levels0, FindAllowedLevel(p.levelId).value)
    requires InsertOutcome(cards0, cards, topics, levels, WithUpload(p, upload), r)
    requires r.Created? || r.BadRequest?
    requires !r.Created? ==> cards == cards0
    requires r.Created? ==>
      && cards == cards0 + [FlashcardModel.Flatten(r.card)]
      && FlashcardModel.GetById(cards, r.card.id) == Some(r.card)
      && Some(r.card.id) == ToText(p.id)
      && r.card.topic in LabelIds(topics) && r.card.level in LabelIds(levels)
      && r.card.content.imageUrl == ToText(WithUpload(p, upload).imageUrl)
      && r.card.isPremium == p.isPremium
    ensures CreateOutcome(topics0, levels0, cards0, topics, levels, cards, p, upload, r)
  {
  }

  /** The last step of `create`: the repository insert, whose SQL error
      answers 400 with the error's message. */
  method Insert(db: Database, p: FlashcardModel.Payload) returns (r: Response)
    requires db.Valid() && ToText(p.id).Some?
    modifies db`flashcards
    ensures db.Valid()
    ensures InsertOutcome(old(db.flashcards), db.flashcards, db.topics, db.levels, p, r)
    ensures r.Created? || r.BadRequest?
    ensures !r.Created? ==> db.flashcards == old(db.flashcards)
    ensures r.Created? ==>
      && db.flashcards == old(db.flashcards) + [FlashcardModel.Flatten(r.card)]
      && FlashcardModel.GetById(db.flashcards, r.card.id) == Some(r.card)
      && Some(r.card.id) == ToText(p.id)
      && r.card.topic in LabelIds(db.topics) && r.card.level in LabelIds(db.levels)
      && r.card.content.imageUrl == ToText(p.imageUrl)
      && r.card.isPremium == p.isPremium
  {
    var made := FlashcardModel.Create(db, p);
    match made {
      case Err(e) =>
        r := BadRequest(SqlMessage(e));
      case Ok(card) =>
        ghost var made := FlashcardModel.RowOf(ToText(p.id).value, p);
        assert made.Ok?;
        ghost var row := made.value;
        assert db.flashcards == old(db.flashcards) + [row] && card == FlashcardModel.Format(row);
        assert FlashcardModel.References(row, db.topics, db.levels);
        FlashcardModel.FormatRoundTrip(row, card);
        FlashcardModel.StoredPayloadReadsBack(ToText(p.id).value, p);
        r := Created(card);
    }
  }

  /** The query string of the admin listing. */
  datatype ListQuery = ListQuery(page: Option<string>, pageSize: Option<string>, topic: Option<string>, level: Option<string>)

  /** `req.query.x || null`. */
  function OrNull(x: Option<string>): JsValue
  {
    match x
    case None => Null
    case Some(s) => if s == "" then Null else Str(s)
  }

  /** `getAll`: the page and size parameters clamped as the controllers do,
      the topic and level filters from the query, and no other option. */
  method GetAll(db: Database, q: ListQuery) returns (r: FlashcardModel.Listing)
    ensures r.page == Paging.PageParam(q.page) && r.page != 0
    ensures r.pageSize == Paging.PageSizeParam(q.pageSize) && r.pageSize != 0 && r.pageSize <= 100
    ensures var query := FlashcardModel.Query(OrNull(q.topic), OrNull(q.level),
                                              FlashcardModel.Options(Undefined, Undefined, Undefined));
      && r.total == |FlashcardModel.Matching(db.flashcards, query)|
      && r.totalPages == Paging.PageCount(r.total, r.pageSize)
      && r.flashcards == FlashcardModel.FormatAll(Paging.Page(NewestFirst(FlashcardModel.Matching(db.flashcards, query)), r.pageSize, r.page))
  {
    var page := Paging.PageParam(q.page);
    var pageSize := Paging.PageSizeParam(q.pageSize);
    var query := FlashcardModel.Query(OrNull(q.topic), OrNull(q.level),
                                      FlashcardModel.Options(Undefined, Undefined, Undefined));
    r := FlashcardModel.GetAll(db, page, pageSize, query);
  }

  /** The image `update` stores: the uploaded URL, else the body's URL if
      truthy, else the one the flashcard has. */
  function ImageOf(existing: FlashcardModel.Flashcard, body: Body, url: Option<string>): JsValue
  {
    match url
    case Some(u) => Str(u)
    case None => Or(NormalizePayload(body, false, "").imageUrl, FromText(existing.content.imageUrl))
  }

  /** The payload `update` hands to the repository: every field is the
      normalised new value if truthy, else the existing one, except the
      premium flag, taken from the body only when one of its keys is present,
      and the image, chosen by `ImageOf`. */
  function Merge(existing: FlashcardModel.Flashcard, body: Body, image: JsValue): FlashcardModel.Payload
  {
    var u := NormalizePayload(body, false, "");
    var c := existing.content;
    FlashcardModel.Payload(
      id := Undefined,
      topicId := Or(u.topicId, Str(existing.topic)),
      levelId := Or(u.levelId, Str(existing.level)),
      isPremium := if Get(body, "isPremium") != Undefined || Get(body, "is_premium") != Undefined then u.isPremium else existing.isPremium,
      hanzi := Or(u.hanzi, Str(c.hanzi)),
      pinyin := Or(u.pinyin, Str(c.pinyin)),
      englishPhonetic := Or(u.englishPhonetic, FromText(c.englishPhonetic)),
      imageUrl := image,
      audioCn := Or(u.audioCn, FromText(c.audio.cn)),
      audioEn := Or(u.audioEn, FromText(c.audio.en)),
      audioVi := Or(u.audioVi, FromText(c.audio.vi)),
      meaningEn := Or(u.meaningEn, FromText(c.meanings.en)),
      meaningVi := Or(u.meaningVi, FromText(c.meanings.vi)),
      exampleHanzi := Or(u.exampleHanzi, FromText(c.exampleSentence.hanzi)),
      examplePinyin := Or(u.examplePinyin, FromText(c.exampleSentence.pinyin)),
      exampleMeaningVi := Or(u.exampleMeaningVi, FromText(c.exampleSentence.meaningVi)))
  }

  /** The merge rules: text and audio fields are truthy-wins over the stored
      value; the premium flag is presence-wins; the image is upload, then
      body, then stored; and the topic is never the stored one, since the
      normalised topic is never empty: without a topic in the body it is
      reset to the default topic. */
  lemma MergeSpec(existing: FlashcardModel.Flashcard, body: Body, url: Option<string>)
    ensures var p := Merge(existing, body, ImageOf(existing, body, url));
      var c := existing.content;
      && FirstTruthy(p.hanzi, Get(body, "hanzi"), Undefined, Str(c.hanzi))
      && FirstTruthy(p.pinyin, Get(body, "pinyin"), Undefined, Str(c.pinyin))
      && FirstTruthy(p.meaningEn, Get(body, "meaningEn"), Get(body, "meaning_en"), FromText(c.meanings.en))
      && FirstTruthy(p.meaningVi, Get(body, "meaningVi"), Get(body, "meaning_vi"), FromText(c.meanings.vi))
      && FirstTruthy(p.audioCn, Get(body, "audioCn"), Get(body, "audio_cn"), FromText(c.audio.cn))
      && FirstTruthy(p.audioEn, Get(body, "audioEn"), Get(body, "audio_en"), FromText(c.audio.en))
      && FirstTruthy(p.audioVi, Get(body, "audioVi"), Get(body, "audio_vi"), FromText(c.audio.vi))
      && FirstTruthy(p.levelId, Get(body, "levelId"), Get(body, "level_id"), Str(existing.level))
      && (Get(body, "isPremium") == Undefined && Get(body, "is_premium") == Undefined ==> p.isPremium == existing.isPremium)
      && (Get(body, "isPremium") != Undefined ==> p.isPremium == ToBoolean(Get(body, "isPremium"), false))
      && (url.Some? ==> p.imageUrl == Str(url.value))
      && (url.None? ==> FirstTruthy(p.imageUrl, Get(body, "imageUrl"), Get(body, "image_url"), FromText(c.imageUrl)))
      && FirstTruthy(p.topicId, Get(body, "topicId"), Get(body, "topic_id"), Str(DefaultTopicId))
  {
  }

  /** `update`: 404 for an unknown id; otherwise the image is uploaded if
      there is a file (a failed upload answers 400 and writes nothing) and
      the merged payload goes to the repository. The topic and level are not
      checked again, so a merged topic or level that does not exist fails
      on the foreign key. */
  method Update(db: Database, id: string, body: Body, upload: Upload) returns (r: Response)
    requires db.Valid()
    modifies db`flashcards
    ensures db.Valid()
    ensures FlashcardModel.GetById(old(db.flashcards), id).None? ==> r == NotFound && db.flashcards == old(db.flashcards)
    ensures FlashcardModel.GetById(old(db.flashcards), id).Some? && upload.UploadFailed? ==>
      r == BadRequest(upload.message) && db.flashcards == old(db.flashcards)
    ensures FlashcardModel.GetById(old(db.flashcards), id).Some? && !upload.UploadFailed? ==>
      var existing := FlashcardModel.GetById(old(db.flashcards), id).value;
      var p := Merge(existing, body, ImageOf(existing, body, if upload.Uploaded? then Some(upload.url) else None));
      match FlashcardModel.RowOf(id, p)
      case Err(e) => r == BadRequest(SqlMessage(e)) && db.flashcards == old(db.flashcards)
      case Ok(row) =>
        if !FlashcardModel.References(row, db.topics, db.levels) then
          r == BadRequest(SqlMessage(ForeignKeyFailed)) && db.flashcards == old(db.flashcards)
        else
          r == Json(FlashcardModel.Format(row)) && db.flashcards == FlashcardModel.Replace(old(db.flashcards), row)
  {
    var existing := FlashcardModel.GetById(db.flashcards, id);
    if existing.None? {
      return NotFound;
    }
    var url: Option<string> := None;
    match upload {
      case NoFile =>
      case Uploaded(u) =>
        url := Some(u);
      case UploadFailed(message) =>
        return BadRequest(message);
    }
    var payload := Merge(existing.value, body, ImageOf(existing.value, body, url));
    var updated := FlashcardModel.Update(db, id, payload);
    match updated {
      case Err(e) =>
        r := BadRequest(SqlMessage(e));
      case Ok(card) =>
        r := Json(card.value);
    }
  }
}
