/** The generator of the beginner vocabulary list: items, the Chinese and
    pinyin spellings of numbers, the number, weekday and month items, and
    the de-duplication by hanzi that produces the final list. The literal
    word lists are parameters. */
module GenerateWords {
  import opened Strings
  import opened JsValues

  /** One vocabulary entry as the generator writes it. */
  datatype Item = Item(levelId: string, hanzi: string, pinyin: string, meaningEn: string, meaningVi: string, exampleHanzi: string)

  /** A literal word: hanzi, pinyin, English, Vietnamese, example. */
  datatype Word = Word(hanzi: string, pinyin: string, en: string, vi: string, example: string)

  const LevelId: string := "HSK1"

  /** `item(hanzi, pinyin, en, vi, example)`. */
  function MakeItem(hanzi: string, pinyin: string, en: string, vi: string, example: string): (it: Item)
    ensures it.levelId == LevelId
    ensures (it.hanzi, it.pinyin, it.meaningEn, it.meaningVi, it.exampleHanzi) == (hanzi, pinyin, en, vi, example)
  {
    Item(LevelId, hanzi, pinyin, en, vi, example)
  }

  // ---------------------------------------------------------------------
  // numToHanzi / numToPinyin
  // ---------------------------------------------------------------------

  /** The characters for 0 to 10 (`numberMap[n][0]`). */
  const HanziDigits: seq<char> := ['零', '一', '二', '三', '四', '五', '六', '七', '八', '九', '十']

  /** The pinyin for 0 to 10 (`base` in `numToPinyin`). */
  const PinyinDigits: seq<string> := ["líng", "yī", "èr", "sān", "sì", "wǔ", "liù", "qī", "bā", "jiǔ", "shí"]

  /** `numToHanzi(n)`: the table for 0 to 10, "十" and a digit up to 19,
      tens digit, "十" and the ones digit (none for 0) up to 99, "一百",
      "一百零" and a digit up to 109, "一百" and the spelling of `n - 100`
      up to 199, and the decimal digits from 200 on. */
  function NumToHanzi(n: nat): string
    decreases n
  {
    if n <= 10 then [HanziDigits[n]]
    else if n < 20 then "十" + [HanziDigits[n - 10]]
    else if n < 100 then
      var tens := n / 10;
      var ones := n % 10;
      (if tens == 1 then "十" else [HanziDigits[tens]] + "十") + (if ones == 0 then "" else [HanziDigits[ones]])
    else if n == 100 then "一百"
    else if n < 200 then
      var rest := n - 100;
      if rest == 0 then "一百"
      else if rest < 10 then "一百零" + [HanziDigits[rest]]
      else "一百" + NumToHanzi(rest)
    else NatString(n)
  }

  /** `numToPinyin(n)`: the same case split, with a space after "yìbǎi"
      before the spelling of `n - 100`. */
  function NumToPinyin(n: nat): string
    decreases n
  {
    if n <= 10 then PinyinDigits[n]
    else if n < 20 then "shí" + PinyinDigits[n - 10]
    else if n < 100 then
      var tens := n / 10;
      var ones := n % 10;
      (if tens == 1 then "shí" else PinyinDigits[tens] + "shí") + (if ones == 0 then "" else PinyinDigits[ones])
    else if n == 100 then "yìbǎi"
    else if n < 200 then
      var rest := n - 100;
      if rest == 0 then "yìbǎi"
      else if rest < 10 then "yìbǎi líng " + PinyinDigits[rest]
      else "yìbǎi " + NumToPinyin(rest)
    else NatString(n)
  }

  /** The digit a character 零 to 九 stands for. */
  function DigitOf(c: char): (r: Option<nat>)
    ensures r.Some? ==> r.value < 10 && HanziDigits[r.value] == c
  {
    if c == '零' then Some(0) else if c == '一' then Some(1) else if c == '二' then Some(2)
    else if c == '三' then Some(3) else if c == '四' then Some(4) else if c == '五' then Some(5)
    else if c == '六' then Some(6) else if c == '七' then Some(7) else if c == '八' then Some(8)
    else if c == '九' then Some(9) else None
  }

  /** Reads a spelling below 100 back. */
  function Below100Value(s: string): Option<nat>
  {
    if |s| == 1 then (if s[0] == '十' then Some(10) else DigitOf(s[0]))
    else if |s| == 2 && s[0] == '十' then
      (match DigitOf(s[1]) case Some(d) => Some(10 + d) case None => None)
    else if |s| == 2 && s[1] == '十' then
      (match DigitOf(s[0]) case Some(d) => Some(10 * d) case None => None)
    else if |s| == 3 && s[1] == '十' then
      (match (DigitOf(s[0]), DigitOf(s[2])) case (Some(t), Some(d)) => Some(10 * t + d) case _ => None)
    else None
  }

  /** Reads a spelling `NumToHanzi` produces back as its number (the
      partner of `NumToHanzi`). */
  function HanziValue(s: string): Option<nat>
  {
    if |s| > 0 && AllDigits(s) then Some(ParseNat(s))
    else if |s| >= 2 && s[..2] == "一百" then
      var rest := s[2..];
      if rest == "" then Some(100)
      else if |rest| == 2 && rest[0] == '零' then
        (match DigitOf(rest[1]) case Some(d) => Some(100 + d) case None => None)
      else
        (match Below100Value(rest) case Some(v) => Some(100 + v) case None => None)
    else Below100Value(s)
  }

  lemma DigitOfDigit(d: nat)
    requires d < 10
    ensures DigitOf(HanziDigits[d]) == Some(d)
  {
  }

  /** A table numeral is no decimal digit and no "百"; only 0 is "零". */
  lemma HanziDigitChar(d: nat)
    requires d <= 10
    ensures !IsDigit(HanziDigits[d]) && HanziDigits[d] != '百'
    ensures d != 0 ==> HanziDigits[d] != '零'
  {
  }

  /** Below 100 the spelling is one to three characters, none of them a
      decimal digit or "百", and it reads back. */
  lemma Below100RoundTrip(n: nat)
    requires n < 100
    ensures var s := NumToHanzi(n);
      1 <= |s| <= 3 && Below100Value(s) == Some(n) && !IsDigit(s[0]) && '百' !in s
    ensures n != 0 ==> NumToHanzi(n)[0] != '零'
  {
    if n <= 10 {
      HanziDigitChar(n);
      if n < 10 {
        DigitOfDigit(n);
      }
    } else if n < 20 {
      TeenRoundTrip(n);
    } else {
      TensRoundTrip(n, n / 10, n % 10);
    }
  }

  lemma TeenRoundTrip(n: nat)
    requires 10 < n < 20
    ensures var s := NumToHanzi(n);
      |s| == 2 && Below100Value(s) == Some(n) && s[0] == '十' && '百' !in s
  {
    var s := NumToHanzi(n);
    DigitOfDigit(n - 10);
    HanziDigitChar(n - 10);
    assert s == ['十', HanziDigits[n - 10]];
  }

  lemma TensRoundTrip(n: nat, tens: nat, ones: nat)
    requires 20 <= n < 100 && tens == n / 10 && ones == n % 10
    ensures var s := NumToHanzi(n);
      2 <= |s| <= 3 && Below100Value(s) == Some(n) && s[0] == HanziDigits[tens] && '百' !in s
    ensures 2 <= tens < 10 && ones < 10
  {
    var s := NumToHanzi(n);
    assert n == 10 * tens + ones;
    DigitOfDigit(tens);
    DigitOfDigit(ones);
    HanziDigitChar(tens);
    HanziDigitChar(ones);
    if ones == 0 {
      assert s == [HanziDigits[tens], '十'];
    } else {
      assert s == [HanziDigits[tens], '十', HanziDigits[ones]];
    }
  }

  /** Every spelling reads back as its number: the Chinese spellings up to
      199 and the decimal ones from 200 on. */
  lemma HanziRoundTrip(n: nat)
    ensures HanziValue(NumToHanzi(n)) == Some(n)
  {
    var s := NumToHanzi(n);
    if n < 100 {
      Below100RoundTrip(n);
      assert !AllDigits(s);
      if |s| >= 2 {
        assert s[..2][1] == s[1] != '百';
      }
    } else if n < 200 {
      var rest := n - 100;
      assert !AllDigits(s) by {
        assert s[0] == '一';
      }
      if rest == 0 {
        assert s[..2] == "一百" && s[2..] == "";
      } else if rest < 10 {
        DigitOfDigit(rest);
        assert s[..2] == "一百";
        assert s[2..] == ['零', HanziDigits[rest]];
      } else {
        Below100RoundTrip(rest);
        var r := NumToHanzi(rest);
        assert s == "一百" + r;
        assert s[..2] == "一百" && s[2..] == r;
        assert r[0] != '零';
      }
    } else {
      NatStringRoundTrip(n);
    }
  }

  /** Different numbers are spelled differently, so the number items never
      lose one another to the de-duplication. */
  lemma HanziInjective(a: nat, b: nat)
    requires NumToHanzi(a) == NumToHanzi(b)
    ensures a == b
  {
    HanziRoundTrip(a);
    HanziRoundTrip(b);
  }

  /** The spellings that differ from the usual reading: 110 to 119 come out
      without the "一" before "十", in both scripts. */
  lemma HundredTen()
    ensures NumToHanzi(110) == "一百十" && NumToPinyin(110) == "yìbǎi shí"
    ensures NumToHanzi(115) == "一百十五" && NumToPinyin(115) == "yìbǎi shíwǔ"
  {
  }

  /** The two spellings follow the same case split: the pinyin starts with
      "yìbǎi" exactly when the hanzi starts with "一百", and from 200 on both
      are the decimal digits. */
  lemma PinyinFollowsHanzi(n: nat)
    ensures n >= 200 ==> NumToPinyin(n) == NumToHanzi(n)
    ensures StartsWith(NumToPinyin(n), "yìbǎi") <==> 100 <= n < 200
    ensures StartsWith(NumToHanzi(n), "一百") <==> 100 <= n < 200
  {
    if n < 100 {
      Below100RoundTrip(n);
      PinyinBelow100(n);
    } else if n < 200 {
      var rest := n - 100;
      if rest < 10 {
        assert NumToHanzi(n)[..2] == "一百";
      } else {
        assert NumToHanzi(n)[..2] == "一百";
      }
    } else {
      assert !StartsWith(NumToHanzi(n), "一百") by {
        assert IsDigit(NumToHanzi(n)[0]);
      }
      assert !StartsWith(NumToPinyin(n), "yìbǎi") by {
        assert IsDigit(NumToPinyin(n)[0]);
      }
    }
  }

  lemma PinyinBelow100(n: nat)
    requires n < 100
    ensures !StartsWith(NumToPinyin(n), "yìbǎi")
  {
    var p := NumToPinyin(n);
    if n >= 20 {
      var tens := n / 10;
      assert p[0] == PinyinDigits[tens][0];
    }
    assert |p| >= 2 && (p[0] != 'y' || p[1] != 'ì');
  }

  // ---------------------------------------------------------------------
  // buildNumberItems / buildDaysOfWeek / buildMonths
  // ---------------------------------------------------------------------

  /** The item of number `i`: its spellings, "zero"/"không" or the decimal
      digits as meanings, and "我有…本书" as example. */
  function NumberItem(i: nat): Item
  {
    var hz := NumToHanzi(i);
    MakeItem(hz, NumToPinyin(i), if i == 0 then "zero" else NatString(i),
             if i == 0 then "không" else NatString(i), "我有" + hz + "本书")
  }

  /** `buildNumberItems(max)`: the items of 0 to `max`, in ascending order. */
  method BuildNumberItems(max: int) returns (items: seq<Item>)
    ensures |items| == if max < 0 then 0 else max + 1
    ensures forall i :: 0 <= i < |items| ==> items[i] == NumberItem(i)
  {
    items := [];
    var i := 0;
    while i <= max
      invariant 0 <= i && (max < 0 ==> i == 0) && (max >= 0 ==> i <= max + 1)
      invariant |items| == i
      invariant forall k :: 0 <= k < i ==> items[k] == NumberItem(k)
    {
      var hz := NumToHanzi(i);
      var py := NumToPinyin(i);
      var en := if i == 0 then "zero" else NatString(i);
      var vi := if i == 0 then "không" else NatString(i);
      var it := MakeItem(hz, py, en, vi, "我有" + hz + "本书");
      assert it == NumberItem(i);
      var next := items + [it];
      forall k | 0 <= k <= i ensures next[k] == NumberItem(k) {
        if k < i {
          assert next[k] == items[k];
        }
      }
      items := next;
      i := i + 1;
    }
  }

  /** The hanzi of the items, in order. */
  function HanziOf(items: seq<Item>): (hs: seq<string>)
    ensures |hs| == |items| && forall i :: 0 <= i < |items| ==> hs[i] == items[i].hanzi
  {
    seq(|items|, i requires 0 <= i < |items| => items[i].hanzi)
  }

  predicate DistinctStrings(s: seq<string>)
  {
    forall i, j :: 0 <= i < j < |s| ==> s[i] != s[j]
  }

  /** Number items never share a hanzi. */
  lemma NumberItemsDistinct(items: seq<Item>)
    requires forall i :: 0 <= i < |items| ==> items[i] == NumberItem(i)
    ensures DistinctStrings(HanziOf(items))
  {
    forall i, j | 0 <= i < j < |items|
      ensures items[i].hanzi != items[j].hanzi
    {
      if items[i].hanzi == items[j].hanzi {
        HanziInjective(i, j);
      }
    }
  }

  /** The weekdays: hanzi, pinyin, English, Vietnamese. */
  const Days: seq<(string, string, string, string)> := [
    ("星期一", "xīngqīyī", "Monday", "thứ hai"),
    ("星期二", "xīngqī’èr", "Tuesday", "thứ ba"),
    ("星期三", "xīngqīsān", "Wednesday", "thứ tư"),
    ("星期四", "xīngqīsì", "Thursday", "thứ năm"),
    ("星期五", "xīngqīwǔ", "Friday", "thứ sáu"),
    ("星期六", "xīngqīliù", "Saturday", "thứ bảy"),
    ("星期天", "xīngqītiān", "Sunday", "chủ nhật")]

  /** `buildDaysOfWeek`: one item per weekday, in order, with "今天是…" as example. */
  function BuildDaysOfWeek(): (items: seq<Item>)
    ensures |items| == 7
    ensures forall i :: 0 <= i < 7 ==> items[i].hanzi == Days[i].0 && items[i].exampleHanzi == "今天是" + Days[i].0
  {
    seq(|Days|, i requires 0 <= i < |Days| => MakeItem(Days[i].0, Days[i].1, Days[i].2, Days[i].3, "今天是" + Days[i].0))
  }

  /** The pinyin of the month numbers and the English month names. */
  const MonthPinyin: seq<string> := ["yī", "èr", "sān", "sì", "wǔ", "liù", "qī", "bā", "jiǔ", "shí", "shíyī", "shí’èr"]
  const MonthNames: seq<string> := ["January", "February", "March", "April", "May", "June", "July",
                                    "August", "September", "October", "November", "December"]

  /** The item of month `m`: "…月", "…yuè", the English name, "tháng m",
      and "…我的生日" as example. */
  function MonthItem(m: nat): Item
    requires 1 <= m <= 12
  {
    var hz := NumToHanzi(m) + "月";
    MakeItem(hz, MonthPinyin[m - 1] + "yuè", MonthNames[m - 1], "tháng " + NatString(m), hz + "我的生日")
  }

  /** `buildMonths`: the items of months 1 to 12, in order. */
  method BuildMonths() returns (months: seq<Item>)
    ensures |months| == 12
    ensures forall k :: 0 <= k < 12 ==> months[k] == MonthItem(k + 1)
  {
    months := [];
    var m := 1;
    while m <= 12
      invariant 1 <= m <= 13 && |months| == m - 1
      invariant forall k :: 0 <= k < m - 1 ==> months[k] == MonthItem(k + 1)
    {
      var hz := NumToHanzi(m) + "月";
      var py := MonthPinyin[m - 1] + "yuè";
      months := months + [MakeItem(hz, py, MonthNames[m - 1], "tháng " + NatString(m), hz + "我的生日")];
      m := m + 1;
    }
  }

  /** The twelve months have twelve different hanzi. */
  lemma MonthsDistinct(months: seq<Item>)
    requires |months| == 12 && forall k :: 0 <= k < 12 ==> months[k] == MonthItem(k + 1)
    ensures DistinctStrings(HanziOf(months))
  {
    forall i, j | 0 <= i < j < 12
      ensures months[i].hanzi != months[j].hanzi
    {
      var a := NumToHanzi(i + 1);
      var b := NumToHanzi(j + 1);
      if a + "月" == b + "月" {
        assert a == (a + "月")[..|a|];
        assert |a| == |b|;
        assert b == (b + "月")[..|b|];
        HanziInjective(i + 1, j + 1);
      }
    }
  }

  // ---------------------------------------------------------------------
  // buildAll
  // ---------------------------------------------------------------------

  /** The items of literal words, in order. */
  function WordItems(words: seq<Word>): (items: seq<Item>)
    ensures |items| == |words|
    ensures forall i :: 0 <= i < |words| ==> items[i] == MakeItem(words[i].hanzi, words[i].pinyin, words[i].en, words[i].vi, words[i].example)
  {
    seq(|words|, i requires 0 <= i < |words| => MakeItem(words[i].hanzi, words[i].pinyin, words[i].en, words[i].vi, words[i].example))
  }

  /** What the de-duplication keeps of `list` when the hanzi in `seen` are
      already taken: each item whose hanzi is new, in order. */
  function KeepFirst(list: seq<Item>, seen: set<string>): seq<Item>
  {
    if |list| == 0 then []
    else if list[0].hanzi in seen then KeepFirst(list[1..], seen)
    else [list[0]] + KeepFirst(list[1..], seen + {list[0].hanzi})
  }

  /** The de-duplication loop of `buildAll`: a set of the hanzi seen and
      the kept items, grown item by item. */
  method Dedup(list: seq<Item>) returns (dedup: seq<Item>)
    ensures dedup == KeepFirst(list, {})
  {
    var seen: set<string> := {};
    dedup := [];
    for i := 0 to |list|
      invariant dedup + KeepFirst(list[i..], seen) == KeepFirst(list, {})
    {
      var it := list[i];
      assert list[i..][1..] == list[i + 1..];
      if it.hanzi !in seen {
        seen := seen + {it.hanzi};
        dedup := dedup + [it];
      }
    }
  }

  /** The first item of `list` with hanzi `h`, if any. */
  function FirstWith(list: seq<Item>, h: string): Option<Item>
  {
    if |list| == 0 then None else if list[0].hanzi == h then Some(list[0]) else FirstWith(list[1..], h)
  }

  /** `sub` is `list` with some items left out, the rest in their order. */
  predicate Subsequence(sub: seq<Item>, list: seq<Item>)
    decreases |list|
  {
    if |sub| == 0 then true
    else if |list| == 0 then false
    else if sub[0] == list[0] then Subsequence(sub[1..], list[1..])
    else Subsequence(sub, list[1..])
  }

  /** The de-duplication keeps the input's order: its output is a subsequence. */
  lemma {:induction false} KeepFirstOrder(list: seq<Item>, seen: set<string>)
    ensures Subsequence(KeepFirst(list, seen), list)
    decreases |list|
  {
    if |list| > 0 {
      var h := list[0].hanzi;
      if h in seen {
        KeepFirstOrder(list[1..], seen);
        SubsequenceSkip(KeepFirst(list[1..], seen), list);
      } else {
        KeepFirstOrder(list[1..], seen + {h});
        var out := KeepFirst(list, seen);
        assert out[0] == list[0] && out[1..] == KeepFirst(list[1..], seen + {h});
      }
    }
  }

  lemma {:induction false} SubsequenceSkip(sub: seq<Item>, list: seq<Item>)
    requires |list| > 0 && Subsequence(sub, list[1..])
    ensures Subsequence(sub, list)
    decreases |list|, 0
  {
    if |sub| > 0 && sub[0] == list[0] {
      SubsequenceTail(sub, list[1..]);
    }
  }

  lemma {:induction false} SubsequenceTail(sub: seq<Item>, list: seq<Item>)
    requires |sub| > 0 && Subsequence(sub, list)
    ensures Subsequence(sub[1..], list)
    decreases |list|, 1
  {
    if sub[0] == list[0] {
      SubsequenceSkip(sub[1..], list);
    } else {
      SubsequenceTail(sub, list[1..]);
      SubsequenceSkip(sub[1..], list);
    }
  }

  /** The hanzi the de-duplication keeps are exactly those of the input not
      taken yet, and none of them twice. */
  lemma {:induction false} KeepFirstHanzi(list: seq<Item>, seen: set<string>)
    ensures forall h :: h in HanziOf(KeepFirst(list, seen)) <==> h in HanziOf(list) && h !in seen
    ensures DistinctStrings(HanziOf(KeepFirst(list, seen)))
    decreases |list|
  {
    if |list| > 0 {
      var h := list[0].hanzi;
      var rest := list[1..];
      assert HanziOf(rest) == HanziOf(list)[1..];
      assert forall g :: g in HanziOf(list) <==> g == h || g in HanziOf(rest);
      if h in seen {
        KeepFirstHanzi(rest, seen);
      } else {
        KeepFirstHanzi(rest, seen + {h});
        var tail := KeepFirst(rest, seen + {h});
        var out := [list[0]] + tail;
        assert HanziOf(out) == [h] + HanziOf(tail);
        DistinctCons(h, HanziOf(tail));
      }
    }
  }

  lemma DistinctCons(h: string, hs: seq<string>)
    requires DistinctStrings(hs) && h !in hs
    ensures DistinctStrings([h] + hs)
  {
    var out := [h] + hs;
    forall i, j | 0 <= i < j < |out| ensures out[i] != out[j] {
      assert out[j] == hs[j - 1];
      if i > 0 {
        assert out[i] == hs[i - 1];
      }
    }
  }

  /** The item kept for a hanzi is the first item with that hanzi. */
  lemma {:induction false} KeepFirstFirst(list: seq<Item>, seen: set<string>)
    ensures forall x :: x in KeepFirst(list, seen) ==> x.hanzi !in seen && FirstWith(list, x.hanzi) == Some(x)
    decreases |list|
  {
    if |list| > 0 {
      var h := list[0].hanzi;
      var rest := list[1..];
      if h in seen {
        KeepFirstFirst(rest, seen);
      } else {
        KeepFirstFirst(rest, seen + {h});
        var tail := KeepFirst(rest, seen + {h});
        assert KeepFirst(list, seen) == [list[0]] + tail;
        forall x | x in tail ensures x.hanzi != h {
        }
      }
    }
  }

  /** `buildAll`: the base words, the numbers 0 to 500, the weekdays, the
      months and the further word lists, in that order, de-duplicated by
      hanzi. Every item is at the generated level; every hanzi of the list
      appears once, as its first item. */
  method BuildAll(baseWords: seq<Word>, moreWords: seq<Word>) returns (out: seq<Item>)
    ensures var list := AllItems(baseWords, moreWords);
      && out == KeepFirst(list, {})
      && Subsequence(out, list)
      && (forall x :: x in out ==> x.levelId == LevelId && FirstWith(list, x.hanzi) == Some(x))
      && DistinctStrings(HanziOf(out))
      && (forall h :: h in HanziOf(out) <==> h in HanziOf(list))
  {
    var numbers := BuildNumberItems(500);
    var months := BuildMonths();
    var list := WordItems(baseWords) + numbers + BuildDaysOfWeek() + months + WordItems(moreWords);
    assert list == AllItems(baseWords, moreWords) by {
      NumberItemsAre(numbers, 500);
      MonthItemsAre(months);
    }
    out := Dedup(list);
    KeepFirstOrder(list, {});
    KeepFirstHanzi(list, {});
    KeptLevels(list);
  }

  /** Every item kept comes first for its hanzi and, when the whole list is
      HSK 1, is HSK 1 itself. */
  lemma KeptLevels(list: seq<Item>)
    requires forall x :: x in list ==> x.levelId == LevelId
    ensures forall x :: x in KeepFirst(list, {}) ==> x.levelId == LevelId && FirstWith(list, x.hanzi) == Some(x)
  {
    KeepFirstFirst(list, {});
    forall x | x in KeepFirst(list, {}) ensures x.levelId == LevelId {
      FirstWithIn(list, x.hanzi);
    }
  }

  /** The list `buildAll` de-duplicates. */
  function AllItems(baseWords: seq<Word>, moreWords: seq<Word>): seq<Item>
  {
    WordItems(baseWords) + seq(501, i requires 0 <= i < 501 => NumberItem(i)) + BuildDaysOfWeek()
      + seq(12, k requires 0 <= k < 12 => MonthItem(k + 1)) + WordItems(moreWords)
  }

  lemma NumberItemsAre(numbers: seq<Item>, max: nat)
    requires |numbers| == max + 1 && forall i :: 0 <= i < |numbers| ==> numbers[i] == NumberItem(i)
    ensures numbers == seq(max + 1, i requires 0 <= i < max + 1 => NumberItem(i))
  {
  }

  lemma MonthItemsAre(months: seq<Item>)
    requires |months| == 12 && forall k :: 0 <= k < 12 ==> months[k] == MonthItem(k + 1)
    ensures months == seq(12, k requires 0 <= k < 12 => MonthItem(k + 1))
  {
  }

  lemma {:induction false} FirstWithIn(list: seq<Item>, h: string)
    ensures FirstWith(list, h).Some? ==> FirstWith(list, h).value in list
  {
    if |list| > 0 && list[0].hanzi != h {
      FirstWithIn(list[1..], h);
    }
  }
}
