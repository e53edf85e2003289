/** The duplicate check over the vocabulary list: the items are grouped by
    `hanzi` and by the pair key "hanzi|pinyin", each grouping a JavaScript
    `Map` from key to the array of items, and the groups of more than one
    item are reported, at most fifty per grouping. The report, which the
    script prints, is returned as a value. */
module CheckDuplicates {
  import opened Strings
  import opened JsValues
  import opened Tables
  import ImportWords

  type WordItem = ImportWords.WordItem

  // ---------------------------------------------------------------------
  // A Map from keys to arrays of items
  // ---------------------------------------------------------------------

  /** A `Map` of arrays: `order` is the insertion order the `Map` iterates in. */
  datatype Groups<K> = Groups(order: seq<K>, members: map<K, seq<WordItem>>)

  /** One pass of the loop on one `Map`: an empty array under a new key,
      then the item pushed on the key's array. */
  function Push<K>(g: Groups<K>, k: K, x: WordItem): Groups<K>
  {
    if k in g.members then Groups(g.order, g.members[k := g.members[k] + [x]])
    else Groups(g.order + [k], g.members[k := [x]])
  }

  /** The `Map` after the loop has pushed every item under its key. */
  function GroupsOf<K>(items: seq<WordItem>, keys: seq<K>): Groups<K>
    requires |items| == |keys|
  {
    if |items| == 0 then Groups([], map[])
    else Push(GroupsOf(items[..|items| - 1], keys[..|keys| - 1]), keys[|keys| - 1], items[|items| - 1])
  }

  /** The items under key `k`, in input order. */
  function Select<K(==)>(items: seq<WordItem>, keys: seq<K>, k: K): (group: seq<WordItem>)
    requires |items| == |keys|
    ensures |group| == multiset(keys)[k]
    ensures forall x :: x in group ==> exists j :: 0 <= j < |items| && items[j] == x && keys[j] == k
  {
    if |items| == 0 then []
    else
      var n := |items| - 1;
      assert keys == keys[..n] + [keys[n]];
      var front := Select(items[..n], keys[..n], k);
      assert forall x :: x in front ==> exists j :: 0 <= j < |items| && items[j] == x && keys[j] == k by {
        forall x | x in front ensures exists j :: 0 <= j < |items| && items[j] == x && keys[j] == k {
          var j :| 0 <= j < n && items[..n][j] == x && keys[..n][j] == k;
          assert items[j] == x && keys[j] == k;
        }
      }
      front + (if keys[n] == k then [items[n]] else [])
  }

  /** Where a key first occurs. */
  function FirstIndex<K(==)>(keys: seq<K>, k: K): (i: nat)
    requires k in keys
    ensures i < |keys| && keys[i] == k && k !in keys[..i]
  {
    if keys[0] == k then 0
    else
      var i := FirstIndex(keys[1..], k);
      assert keys[..i + 1] == [keys[0]] + keys[1..][..i];
      i + 1
  }

  lemma FirstIndexSnoc<K>(keys: seq<K>, y: K, k: K)
    requires k in keys
    ensures FirstIndex(keys + [y], k) == FirstIndex(keys, k)
  {
    if keys[0] != k {
      assert (keys + [y])[1..] == keys[1..] + [y];
      FirstIndexSnoc(keys[1..], y, k);
    }
  }

  lemma FirstIndexLast<K>(keys: seq<K>, y: K)
    requires y !in keys
    ensures FirstIndex(keys + [y], y) == |keys|
  {
    assert forall j :: 0 <= j < |keys| ==> (keys + [y])[j] != y;
  }

  /** The `Map` holds exactly the keys that occur, each once, in the order
      of their first occurrence. */
  lemma GroupOrder<K>(items: seq<WordItem>, keys: seq<K>)
    requires |items| == |keys|
    ensures var g := GroupsOf(items, keys);
      && Distinct(g.order)
      && (forall k :: k in g.members <==> k in keys)
      && (forall k :: k in g.order <==> k in keys)
      && (forall i, j :: 0 <= i < j < |g.order| ==> FirstIndex(keys, g.order[i]) < FirstIndex(keys, g.order[j]))
  {
    GroupKeys(items, keys);
    GroupFirstOrder(items, keys);
  }

  /** The keys of the `Map`, and its order without repeats. */
  lemma {:induction false} GroupKeys<K>(items: seq<WordItem>, keys: seq<K>)
    requires |items| == |keys|
    ensures var g := GroupsOf(items, keys);
      && Distinct(g.order)
      && (forall k :: k in g.members <==> k in keys)
      && (forall k :: k in g.order <==> k in keys)
  {
    if |items| > 0 {
      var n := |items| - 1;
      GroupKeys(items[..n], keys[..n]);
      var g := GroupsOf(items[..n], keys[..n]);
      var y := keys[n];
      assert keys == keys[..n] + [y];
      if y !in g.members {
        var order := g.order + [y];
        forall i, j | 0 <= i < j < |order| ensures order[i] != order[j] {
          if j < |g.order| {
            assert order[i] == g.order[i] && order[j] == g.order[j];
          } else {
            assert order[i] == g.order[i] && order[i] in g.order;
          }
        }
      }
    }
  }

  /** The `Map`'s order is the order of first occurrence. */
  lemma {:induction false} GroupFirstOrder<K>(items: seq<WordItem>, keys: seq<K>)
    requires |items| == |keys|
    ensures forall k :: k in GroupsOf(items, keys).order ==> k in keys
    ensures var g := GroupsOf(items, keys);
      forall i, j :: 0 <= i < j < |g.order| ==> FirstIndex(keys, g.order[i]) < FirstIndex(keys, g.order[j])
  {
    GroupKeys(items, keys);
    if |items| > 0 {
      var n := |items| - 1;
      GroupFirstOrder(items[..n], keys[..n]);
      GroupKeys(items[..n], keys[..n]);
      var g := GroupsOf(items[..n], keys[..n]);
      var y := keys[n];
      assert keys == keys[..n] + [y];
      var order := GroupsOf(items, keys).order;
      assert order == if y in g.members then g.order else g.order + [y];
      forall k | k in keys[..n] ensures FirstIndex(keys, k) == FirstIndex(keys[..n], k) {
        FirstIndexSnoc(keys[..n], y, k);
      }
      if y !in g.members {
        FirstIndexLast(keys[..n], y);
      }
      forall i, j | 0 <= i < j < |order| ensures FirstIndex(keys, order[i]) < FirstIndex(keys, order[j]) {
        assert order[i] == g.order[i] && g.order[i] in g.order;
        if j < |g.order| {
          assert order[j] == g.order[j] && g.order[j] in g.order;
        }
      }
    }
  }

  /** The array under each key holds the items with that key, in input order. */
  lemma {:induction false} GroupMembers<K>(items: seq<WordItem>, keys: seq<K>)
    requires |items| == |keys|
    ensures var g := GroupsOf(items, keys);
      forall k :: k in g.members ==> g.members[k] == Select(items, keys, k)
  {
    if |items| > 0 {
      var n := |items| - 1;
      GroupMembers(items[..n], keys[..n]);
      GroupOrder(items[..n], keys[..n]);
      var g := GroupsOf(items[..n], keys[..n]);
      forall k | k in GroupsOf(items, keys).members
        ensures GroupsOf(items, keys).members[k] == Select(items, keys, k)
      {
        if k == keys[n] && k !in g.members {
          assert multiset(keys[..n])[k] == 0;
        }
      }
    }
  }

  // ---------------------------------------------------------------------
  // The groups partition the list
  // ---------------------------------------------------------------------

  /** The sum of the array lengths over the keys of `order`. */
  function Total<K>(order: seq<K>, members: map<K, seq<WordItem>>): nat
    requires forall k :: k in order ==> k in members
  {
    if |order| == 0 then 0 else |members[order[0]]| + Total(order[1..], members)
  }

  lemma TotalFrame<K>(order: seq<K>, m1: map<K, seq<WordItem>>, m2: map<K, seq<WordItem>>)
    requires forall k :: k in order ==> k in m1 && k in m2 && |m1[k]| == |m2[k]|
    ensures Total(order, m1) == Total(order, m2)
  {
  }

  lemma TotalSnoc<K>(order: seq<K>, members: map<K, seq<WordItem>>, k: K)
    requires forall j :: j in order ==> j in members
    requires k in members
    ensures Total(order + [k], members) == Total(order, members) + |members[k]|
  {
    if |order| > 0 {
      assert (order + [k])[1..] == order[1..] + [k];
      TotalSnoc(order[1..], members, k);
    }
  }

  lemma TotalBump<K>(order: seq<K>, members: map<K, seq<WordItem>>, k: K, x: WordItem)
    requires forall j :: j in order ==> j in members
    requires Distinct(order) && k in order
    ensures Total(order, members[k := members[k] + [x]]) == Total(order, members) + 1
  {
    if order[0] == k {
      assert forall j :: 0 <= j < |order| - 1 ==> order[1..][j] != k by {
        assert forall j :: 0 <= j < |order| - 1 ==> order[1..][j] == order[j + 1];
      }
      TotalFrame(order[1..], members[k := members[k] + [x]], members);
    } else {
      TotalBump(order[1..], members, k, x);
    }
  }

  /** Every item is in exactly one array: the arrays' lengths add up to the
      length of the list. */
  lemma {:induction false} GroupsPartition<K>(items: seq<WordItem>, keys: seq<K>)
    requires |items| == |keys|
    ensures var g := GroupsOf(items, keys);
      (forall k :: k in g.order ==> k in g.members) && Total(g.order, g.members) == |items|
  {
    GroupOrder(items, keys);
    if |items| > 0 {
      var n := |items| - 1;
      GroupsPartition(items[..n], keys[..n]);
      GroupOrder(items[..n], keys[..n]);
      var g := GroupsOf(items[..n], keys[..n]);
      var y := keys[n];
      if y in g.members {
        TotalBump(g.order, g.members, y, items[n]);
      } else {
        var m := g.members[y := [items[n]]];
        TotalFrame(g.order, m, g.members);
        TotalSnoc(g.order, m, y);
      }
    }
  }

  // ---------------------------------------------------------------------
  // Keys
  // ---------------------------------------------------------------------

  /** The hanzi of each item: the first `Map`'s keys. */
  function HanziKeys(items: seq<WordItem>): (keys: seq<JsValue>)
    ensures |keys| == |items| && forall j :: 0 <= j < |items| ==> keys[j] == items[j].hanzi
  {
    if |items| == 0 then [] else HanziKeys(items[..|items| - 1]) + [items[|items| - 1].hanzi]
  }

  /** `(it.pinyin || '').trim()`: a falsy pinyin counts as the empty string;
      a truthy one that is not a string has no `trim`, and the script throws. */
  function PinyinText(pinyin: JsValue): (t: Option<string>)
    ensures t.None? <==> Truthy(pinyin) && !pinyin.Str?
    ensures pinyin.Str? ==> t == Some(Trim(pinyin.s))
    ensures !Truthy(pinyin) ==> t == Some("")
  {
    var w := Or(pinyin, Str(""));
    if w.Str? then Some(Trim(w.s)) else None
  }

  /** The second `Map`'s key: the hanzi as a string, a bar, the trimmed pinyin. */
  function PairKey(it: WordItem): Option<string>
  {
    match PinyinText(it.pinyin)
    case None => None
    case Some(py) => Some(JsString(it.hanzi) + "|" + py)
  }

  /** The key of each item, or `None` when computing one of them throws. */
  function KeysOf<K>(items: seq<WordItem>, key: WordItem -> Option<K>): (keys: Option<seq<K>>)
    ensures keys.None? <==> exists j :: 0 <= j < |items| && key(items[j]).None?
    ensures keys.Some? ==> |keys.value| == |items| && forall j :: 0 <= j < |items| ==> key(items[j]) == Some(keys.value[j])
  {
    if |items| == 0 then Some([])
    else
      var n := |items| - 1;
      var front := KeysOf(items[..n], key);
      assert forall j :: 0 <= j < n ==> items[..n][j] == items[j];
      if front.None? || key(items[n]).None? then None else Some(front.value + [key(items[n]).value])
  }

  /** The pair keys of the whole list, or `None` when one of them throws. */
  function PairKeys(items: seq<WordItem>): Option<seq<string>>
  {
    KeysOf(items, PairKey)
  }

  /** For items whose hanzi are strings without a bar, the pair key
      determines the hanzi and the trimmed pinyin: two items that share a
      pair group share a hanzi group. */
  lemma PairKeyDeterminesHanzi(a: WordItem, b: WordItem)
    requires a.hanzi.Str? && b.hanzi.Str? && '|' !in a.hanzi.s && '|' !in b.hanzi.s
    requires PairKey(a).Some? && PairKey(a) == PairKey(b)
    ensures a.hanzi == b.hanzi && PinyinText(a.pinyin) == PinyinText(b.pinyin)
  {
    var pa, pb := PinyinText(a.pinyin).value, PinyinText(b.pinyin).value;
    var ka, kb := a.hanzi.s + ['|'] + pa, b.hanzi.s + ['|'] + pb;
    assert PairKey(a) == Some(ka) && PairKey(b) == Some(kb);
    SplitPrefix(a.hanzi.s, pa, '|');
    SplitPrefix(b.hanzi.s, pb, '|');
    assert Split(ka, '|')[0] == a.hanzi.s && Split(kb, '|')[0] == b.hanzi.s;
    assert pa == ka[|a.hanzi.s| + 1..];
    assert pb == kb[|b.hanzi.s| + 1..];
  }

  /** Each item of a group stands in the list under the group's key. */
  lemma GroupMemberAt<K>(items: seq<WordItem>, keys: seq<K>, k: K, x: WordItem)
    requires |items| == |keys|
    requires k in GroupsOf(items, keys).members && x in GroupsOf(items, keys).members[k]
    ensures exists i :: 0 <= i < |items| && items[i] == x && keys[i] == k
  {
    GroupMembers(items, keys);
  }

  /** An item is in the selection under its own key. */
  lemma SelectHas<K>(items: seq<WordItem>, keys: seq<K>, k: K, i: nat)
    requires |items| == |keys| && i < |items| && keys[i] == k
    ensures items[i] in Select(items, keys, k)
  {
    var n := |items| - 1;
    if i < n {
      SelectHas(items[..n], keys[..n], k, i);
    }
  }

  /** Each item is in the group of its own key. */
  lemma ItemInOwnGroup<K>(items: seq<WordItem>, keys: seq<K>, i: nat)
    requires |items| == |keys| && i < |items|
    ensures keys[i] in GroupsOf(items, keys).members && items[i] in GroupsOf(items, keys).members[keys[i]]
  {
    GroupOrder(items, keys);
    GroupMembers(items, keys);
    SelectHas(items, keys, keys[i], i);
  }

  /** When equal keys of one kind imply equal keys of another, every
      group of the first kind lies within one group of the second. */
  lemma GroupWithin<A, B>(items: seq<WordItem>, keysA: seq<A>, keysB: seq<B>, k: A, x: WordItem, y: WordItem)
    requires |items| == |keysA| == |keysB|
    requires forall i, j :: 0 <= i < |items| && 0 <= j < |items| && keysA[i] == keysA[j] ==> keysB[i] == keysB[j]
    requires k in GroupsOf(items, keysA).members && x in GroupsOf(items, keysA).members[k] && y in GroupsOf(items, keysA).members[k]
    ensures exists i :: (0 <= i < |items| && items[i] == x && keysB[i] in GroupsOf(items, keysB).members &&
                         x in GroupsOf(items, keysB).members[keysB[i]] && y in GroupsOf(items, keysB).members[keysB[i]])
  {
    GroupMemberAt(items, keysA, k, x);
    GroupMemberAt(items, keysA, k, y);
    var i :| 0 <= i < |items| && items[i] == x && keysA[i] == k;
    var j :| 0 <= j < |items| && items[j] == y && keysA[j] == k;
    ItemInOwnGroup(items, keysB, i);
    ItemInOwnGroup(items, keysB, j);
  }

  /** In a list whose hanzi are strings without a bar, equal pair keys mean equal hanzi. */
  lemma PairKeysDetermineHanzi(items: seq<WordItem>, keys: seq<string>)
    requires forall j :: 0 <= j < |items| ==> items[j].hanzi.Str? && '|' !in items[j].hanzi.s
    requires PairKeys(items) == Some(keys)
    ensures |keys| == |items|
    ensures forall i, j :: 0 <= i < |items| && 0 <= j < |items| && keys[i] == keys[j] ==> HanziKeys(items)[i] == HanziKeys(items)[j]
  {
    forall i, j | 0 <= i < |items| && 0 <= j < |items| && keys[i] == keys[j]
      ensures HanziKeys(items)[i] == HanziKeys(items)[j]
    {
      PairKeyDeterminesHanzi(items[i], items[j]);
    }
  }

  /** Items in the same pair group of such a list are in the same hanzi group. */
  lemma PairGroupWithinHanziGroup(items: seq<WordItem>, keys: seq<string>, k: string, x: WordItem, y: WordItem)
    requires forall j :: 0 <= j < |items| ==> items[j].hanzi.Str? && '|' !in items[j].hanzi.s
    requires PairKeys(items) == Some(keys)
    requires k in GroupsOf(items, keys).members && x in GroupsOf(items, keys).members[k] && y in GroupsOf(items, keys).members[k]
    ensures x.hanzi == y.hanzi
    ensures x.hanzi in GroupsOf(items, HanziKeys(items)).members
    ensures x in GroupsOf(items, HanziKeys(items)).members[x.hanzi] && y in GroupsOf(items, HanziKeys(items)).members[x.hanzi]
  {
    var hk := HanziKeys(items);
    PairKeysDetermineHanzi(items, keys);
    SameHanziGroup(items, keys, hk, k, x, y);
  }

  /** The glue of the lemma above, on the key sequences alone. */
  lemma SameHanziGroup(items: seq<WordItem>, keys: seq<string>, hk: seq<JsValue>, k: string, x: WordItem, y: WordItem)
    requires |items| == |keys| == |hk|
    requires forall j :: 0 <= j < |items| ==> hk[j] == items[j].hanzi
    requires forall i, j :: 0 <= i < |items| && 0 <= j < |items| && keys[i] == keys[j] ==> hk[i] == hk[j]
    requires k in GroupsOf(items, keys).members && x in GroupsOf(items, keys).members[k] && y in GroupsOf(items, keys).members[k]
    ensures x.hanzi == y.hanzi
    ensures x.hanzi in GroupsOf(items, hk).members
    ensures x in GroupsOf(items, hk).members[x.hanzi] && y in GroupsOf(items, hk).members[x.hanzi]
  {
    var g := GroupsOf(items, hk);
    GroupWithin(items, keys, hk, k, x, y);
    var i :| 0 <= i < |items| && items[i] == x && hk[i] in g.members && x in g.members[hk[i]] && y in g.members[hk[i]];
    GroupMemberAt(items, hk, x.hanzi, y);
  }

  /** Without that condition the pair key does not determine the hanzi:
      the string "1" and the number 1 give the same pair key but are
      different hanzi keys. */
  lemma PairKeyNumberCollision()
    ensures var a := ImportWords.WordItem(Null, Str("1"), Str("yi"), Null, Null, Null);
            var b := ImportWords.WordItem(Null, Num(1), Str("yi"), Null, Null, Null);
            PairKey(a) == PairKey(b) == Some("1|yi") && a.hanzi != b.hanzi
  {
    OneKey(Str("1"));
    assert JsString(Num(1)) == "1" by { assert DigitChar(1) == '1'; }
    OneKey(Num(1));
  }

  /** Either hanzi whose string is "1", with the pinyin "yi", has the key "1|yi". */
  lemma OneKey(hanzi: JsValue)
    requires JsString(hanzi) == "1"
    ensures PairKey(ImportWords.WordItem(Null, hanzi, Str("yi"), Null, Null, Null)) == Some("1|yi")
  {
    OneKeyText();
    KeyOf(hanzi, "1", "yi");
  }

  lemma OneKeyText()
    ensures "1" + "|" + "yi" == "1|yi"
  {
  }

  /** Nor does it when a hanzi holds a bar: the hanzi "a|b" with pinyin "c"
      and the hanzi "a" with pinyin "b|c" share the pair key "a|b|c". */
  lemma PairKeyBarCollision()
    ensures var a := ImportWords.WordItem(Null, Str("a|b"), Str("c"), Null, Null, Null);
            var b := ImportWords.WordItem(Null, Str("a"), Str("b|c"), Null, Null, Null);
            PairKey(a) == PairKey(b) == Some("a|b|c") && a.hanzi != b.hanzi
  {
    BarKeyLeft();
    BarKeyRight();
  }

  lemma BarKeyLeft()
    ensures PairKey(ImportWords.WordItem(Null, Str("a|b"), Str("c"), Null, Null, Null)) == Some("a|b|c")
  {
    BarKeyLeftText();
    KeyOf(Str("a|b"), "a|b", "c");
  }

  lemma BarKeyLeftText()
    ensures "a|b" + "|" + "c" == "a|b|c"
  {
  }

  lemma BarKeyRight()
    ensures PairKey(ImportWords.WordItem(Null, Str("a"), Str("b|c"), Null, Null, Null)) == Some("a|b|c")
  {
    BarKeyRightText();
    KeyOf(Str("a"), "a", "b|c");
  }

  lemma BarKeyRightText()
    ensures "a" + "|" + "b|c" == "a|b|c"
  {
  }

  lemma KeyOf(hanzi: JsValue, text: string, pinyin: string)
    requires JsString(hanzi) == text
    requires |pinyin| > 0 && !IsJsWhitespace(pinyin[0]) && !IsJsWhitespace(pinyin[|pinyin| - 1])
    ensures PairKey(ImportWords.WordItem(Null, hanzi, Str(pinyin), Null, Null, Null)) == Some(text + "|" + pinyin)
  {
    PinyinPlain(pinyin);
  }

  /** A pinyin string with no whitespace at either end is its own key part. */
  lemma PinyinPlain(s: string)
    requires |s| > 0 && !IsJsWhitespace(s[0]) && !IsJsWhitespace(s[|s| - 1])
    ensures PinyinText(Str(s)) == Some(s)
  {
    TrimPlain(s);
  }

  /** A string with no whitespace at either end is its own trim. */
  lemma TrimPlain(s: string)
    requires |s| > 0 && !IsJsWhitespace(s[0]) && !IsJsWhitespace(s[|s| - 1])
    ensures Trim(s) == s
  {
    var i :| TrimmedAt(s, Trim(s), i);
  }

  // ---------------------------------------------------------------------
  // Duplicate groups and the report
  // ---------------------------------------------------------------------

  /** `[...map.entries()].filter(([, arr]) => arr.length > 1)`, by key. */
  function Duplicates<K(!new)>(g: Groups<K>): (dups: seq<K>)
    ensures forall k :: k in dups <==> k in g.order && k in g.members && |g.members[k]| > 1
    ensures Distinct(g.order) ==> Distinct(dups)
  {
    Filter(g.order, k => k in g.members && |g.members[k]| > 1)
  }

  /** The duplicate groups are exactly the keys that occur more than once. */
  lemma DuplicatesAreRepeatedKeys<K(!new)>(items: seq<WordItem>, keys: seq<K>, k: K)
    requires |items| == |keys|
    ensures k in Duplicates(GroupsOf(items, keys)) <==> multiset(keys)[k] > 1
    ensures Distinct(Duplicates(GroupsOf(items, keys)))
  {
    GroupOrder(items, keys);
    GroupMembers(items, keys);
  }

  /** How many entries the script lists per grouping. */
  const Listed := 50

  /** `dup.slice(0, 50)`. */
  function Head<K>(dups: seq<K>): (shown: seq<K>)
    ensures |shown| <= Listed && |shown| <= |dups| && shown == dups[..|shown|]
    ensures |dups| <= Listed ==> shown == dups
  {
    if |dups| <= Listed then dups else dups[..Listed]
  }

  /** The "...and N more" count, 0 when no such line is printed. */
  function More(n: nat): (more: nat)
    ensures more > 0 <==> n > Listed
  {
    if n > Listed then n - Listed else 0
  }

  /** `arr.map(x => x.pinyin).join(', ')`: `undefined` and `null` join as
      empty strings. */
  function PinyinList(group: seq<WordItem>): string
  {
    if |group| == 0 then ""
    else
      var p := group[0].pinyin;
      var text := if p.Undefined? || p.Null? then "" else JsString(p);
      if |group| == 1 then text else text + ", " + PinyinList(group[1..])
  }

  /** `const [hz, py] = key.split('|')`: the first two pieces of the key. */
  function ShownPair(key: string): (string, string)
  {
    var parts := Split(key, '|');
    (parts[0], if |parts| > 1 then parts[1] else "undefined")
  }

  /** The pieces shown are the hanzi and the pinyin the key was made of
      when neither holds a bar. */
  lemma ShownPairOfKey(hz: string, py: string)
    requires '|' !in hz && '|' !in py
    ensures ShownPair(hz + "|" + py) == (hz, py)
  {
    assert hz + "|" + py == hz + ['|'] + py;
    SplitPrefix(hz, py, '|');
    SplitNoSep(py, '|');
  }

  datatype HanziLine = HanziLine(hanzi: JsValue, count: nat, pinyins: string)
  datatype PairLine = PairLine(hanzi: string, pinyin: string, count: nat)

  /** What the script prints: the totals, then at most fifty lines per
      grouping and the count of the groups not listed. */
  datatype Report = Report(total: nat, hanziGroups: nat, pairGroups: nat,
                           hanziLines: seq<HanziLine>, moreHanzi: nat,
                           pairLines: seq<PairLine>, morePairs: nat)

  function HanziLines(keys: seq<JsValue>, members: map<JsValue, seq<WordItem>>): (lines: seq<HanziLine>)
    requires forall k :: k in keys ==> k in members
    ensures |lines| == |keys|
    ensures forall i :: 0 <= i < |keys| ==> lines[i].hanzi == keys[i] && lines[i].count == |members[keys[i]]|
  {
    if |keys| == 0 then []
    else [HanziLine(keys[0], |members[keys[0]]|, PinyinList(members[keys[0]]))] + HanziLines(keys[1..], members)
  }

  function PairLines(keys: seq<string>, members: map<string, seq<WordItem>>): (lines: seq<PairLine>)
    requires forall k :: k in keys ==> k in members
    ensures |lines| == |keys|
    ensures forall i :: 0 <= i < |keys| ==>
      (lines[i].hanzi, lines[i].pinyin) == ShownPair(keys[i]) && lines[i].count == |members[keys[i]]|
  {
    if |keys| == 0 then []
    else
      var shown := ShownPair(keys[0]);
      [PairLine(shown.0, shown.1, |members[keys[0]]|)] + PairLines(keys[1..], members)
  }

  /** The report of a list of `total` items grouped as `byHanzi` and `byPair`:
      the number of duplicate groups of each kind, the first fifty of each
      in the `Map`'s order, and how many more there are. */
  function ReportOf(total: nat, byHanzi: Groups<JsValue>, byPair: Groups<string>): (r: Report)
    ensures r.total == total
    ensures r.hanziGroups == |Duplicates(byHanzi)| && r.pairGroups == |Duplicates(byPair)|
    ensures |r.hanziLines| <= Listed && |r.hanziLines| + r.moreHanzi == r.hanziGroups
    ensures |r.pairLines| <= Listed && |r.pairLines| + r.morePairs == r.pairGroups
    ensures forall i :: 0 <= i < |r.hanziLines| ==>
      r.hanziLines[i].hanzi == Duplicates(byHanzi)[i] && r.hanziLines[i].count > 1
    ensures forall i :: 0 <= i < |r.pairLines| ==>
      (r.pairLines[i].hanzi, r.pairLines[i].pinyin) == ShownPair(Duplicates(byPair)[i]) && r.pairLines[i].count > 1
  {
    var dupHanzi := Duplicates(byHanzi);
    var dupPairs := Duplicates(byPair);
    var shownHanzi := Head(dupHanzi);
    var shownPairs := Head(dupPairs);
    assert forall i :: 0 <= i < |shownHanzi| ==> shownHanzi[i] in dupHanzi;
    assert forall i :: 0 <= i < |shownPairs| ==> shownPairs[i] in dupPairs;
    Report(total, |dupHanzi|, |dupPairs|,
           HanziLines(shownHanzi, byHanzi.members), More(|dupHanzi|),
           PairLines(shownPairs, byPair.members), More(|dupPairs|))
  }

  /** `if (!map.has(k)) map.set(k, []); map.get(k).push(x);` */
  method MapPush<K>(g: Groups<K>, k: K, x: WordItem) returns (h: Groups<K>)
    ensures h == Push(g, k, x)
  {
    h := g;
    if k !in h.members {
      h := Groups(h.order + [k], h.members[k := []]);
    }
    h := h.(members := h.members[k := h.members[k] + [x]]);
    if k !in g.members {
      assert h.members == g.members[k := []][k := [] + [x]];
      assert [] + [x] == [x];
      assert g.members[k := []][k := [x]] == g.members[k := [x]];
    }
  }

  /** One item more: both `Map`s get it pushed under its key. */
  lemma CheckStep(list: seq<WordItem>, i: nat, pairKey: string)
    requires i < |list| && PairKeys(list[..i]).Some?
    requires PairKey(list[i]) == Some(pairKey)
    ensures PairKeys(list[..i + 1]) == Some(PairKeys(list[..i]).value + [pairKey])
    ensures GroupsOf(list[..i + 1], HanziKeys(list[..i + 1])) == Push(GroupsOf(list[..i], HanziKeys(list[..i])), list[i].hanzi, list[i])
    ensures GroupsOf(list[..i + 1], PairKeys(list[..i + 1]).value) == Push(GroupsOf(list[..i], PairKeys(list[..i]).value), pairKey, list[i])
  {
    CheckStepHanzi(list, i);
    CheckStepPair(list, i, pairKey);
  }

  lemma CheckStepHanzi(list: seq<WordItem>, i: nat)
    requires i < |list|
    ensures GroupsOf(list[..i + 1], HanziKeys(list[..i + 1])) == Push(GroupsOf(list[..i], HanziKeys(list[..i])), list[i].hanzi, list[i])
  {
    var w := list[..i + 1];
    assert w[..i] == list[..i] && w[i] == list[i];
    var hk := HanziKeys(list[..i]);
    assert HanziKeys(w) == hk + [list[i].hanzi];
    assert (hk + [list[i].hanzi])[..i] == hk;
  }

  lemma CheckStepPair(list: seq<WordItem>, i: nat, pairKey: string)
    requires i < |list| && PairKeys(list[..i]).Some?
    requires PairKey(list[i]) == Some(pairKey)
    ensures PairKeys(list[..i + 1]) == Some(PairKeys(list[..i]).value + [pairKey])
    ensures GroupsOf(list[..i + 1], PairKeys(list[..i + 1]).value) == Push(GroupsOf(list[..i], PairKeys(list[..i]).value), pairKey, list[i])
  {
    var w := list[..i + 1];
    assert w[..i] == list[..i] && w[i] == list[i];
    var pk := PairKeys(list[..i]).value;
    assert PairKeys(w) == Some(pk + [pairKey]);
    assert (pk + [pairKey])[..i] == pk;
  }

  /** The script throws at an item whose pinyin has no `trim`. */
  lemma PairKeysFail(list: seq<WordItem>, i: nat)
    requires i < |list| && PinyinText(list[i].pinyin).None?
    ensures PairKeys(list).None?
  {
    assert PairKey(list[i]).None?;
  }

  // ---------------------------------------------------------------------
  // main
  // ---------------------------------------------------------------------

  /** The script's `main` over the parsed list: one loop fills both `Map`s,
      then the report is made of them. `None` when an item's pinyin makes
      the script throw. */
  method Check(list: seq<WordItem>) returns (r: Option<Report>)
    ensures r.None? <==> PairKeys(list).None?
    ensures r.Some? ==> r.value == ReportOf(|list|, GroupsOf(list, HanziKeys(list)), GroupsOf(list, PairKeys(list).value))
  {
    var byHanzi: Groups<JsValue> := Groups([], map[]);
    var byPair: Groups<string> := Groups([], map[]);
    for i := 0 to |list|
      invariant PairKeys(list[..i]).Some?
      invariant byHanzi == GroupsOf(list[..i], HanziKeys(list[..i]))
      invariant byPair == GroupsOf(list[..i], PairKeys(list[..i]).value)
    {
      var it := list[i];
      var hz := it.hanzi;
      var py := PinyinText(it.pinyin);
      if py.None? {
        assert PairKeys(list).None? by {
          PairKeysFail(list, i);
        }
        return None;
      }
      var pairKey := JsString(hz) + "|" + py.value;
      assert && PairKeys(list[..i + 1]).Some?
             && Push(byHanzi, hz, it) == GroupsOf(list[..i + 1], HanziKeys(list[..i + 1]))
             && Push(byPair, pairKey, it) == GroupsOf(list[..i + 1], PairKeys(list[..i + 1]).value) by {
        assert PairKey(it) == Some(pairKey);
        CheckStep(list, i, pairKey);
      }
      byHanzi := MapPush(byHanzi, hz, it);
      byPair := MapPush(byPair, pairKey, it);
    }
    assert list[..|list|] == list;
    r := Some(ReportOf(|list|, byHanzi, byPair));
  }
}
