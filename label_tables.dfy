/** What the `topics` and `levels` repositories share: both tables are
    (id, label) with the id as primary key, and both list their rows with a
    per-row flashcard count, ordered by label. */
module LabelTables {
  import opened JsValues
  import opened Tables

  /** `SELECT * FROM <table> WHERE id = ?`: the row, or nothing. */
  function Find(rows: seq<LabelRow>, id: string): (r: Option<LabelRow>)
    ensures r.Some? <==> id in LabelIds(rows)
    ensures r.Some? ==> r.value in rows && r.value.id == id
  {
    if |rows| == 0 then None
    else if rows[0].id == id then Some(rows[0])
    else Find(rows[1..], id)
  }

  /** With distinct ids, the row found is the one at the id's position. */
  lemma {:induction false} FindAt(rows: seq<LabelRow>, k: nat)
    requires Distinct(LabelIds(rows)) && k < |rows|
    ensures Find(rows, rows[k].id) == Some(rows[k])
  {
    if k > 0 {
      assert LabelIds(rows)[0] != LabelIds(rows)[k];
      assert LabelIds(rows[1..]) == LabelIds(rows)[1..];
      FindAt(rows[1..], k - 1);
    }
  }

  /** A row inserted under a new id is found under that id, and every other
      id finds what it found before. */
  lemma {:induction false} FindAppended(rows: seq<LabelRow>, row: LabelRow, other: string)
    requires row.id !in LabelIds(rows)
    ensures Find(rows + [row], row.id) == Some(row)
    ensures other != row.id ==> Find(rows + [row], other) == Find(rows, other)
  {
    if |rows| > 0 {
      assert (rows + [row])[1..] == rows[1..] + [row];
      assert LabelIds(rows[1..]) == LabelIds(rows)[1..];
      FindAppended(rows[1..], row, other);
    }
  }

  /** `UPDATE ... SET label = ? WHERE id = ?` on the rows. */
  function Relabel(rows: seq<LabelRow>, id: string, labelText: string): (r: seq<LabelRow>)
    ensures |r| == |rows| && LabelIds(r) == LabelIds(rows)
    ensures forall i :: 0 <= i < |rows| ==>
      r[i] == if rows[i].id == id then LabelRow(id, labelText) else rows[i]
  {
    seq(|rows|, i requires 0 <= i < |rows| => if rows[i].id == id then LabelRow(id, labelText) else rows[i])
  }

  /** After a relabel the id finds the new label if it was present (and
      nothing otherwise); every other id finds what it found before. */
  lemma {:induction false} FindRelabel(rows: seq<LabelRow>, id: string, labelText: string, other: string)
    ensures Find(Relabel(rows, id, labelText), id) ==
      if id in LabelIds(rows) then Some(LabelRow(id, labelText)) else None
    ensures other != id ==> Find(Relabel(rows, id, labelText), other) == Find(rows, other)
  {
    if |rows| > 0 {
      assert Relabel(rows, id, labelText)[1..] == Relabel(rows[1..], id, labelText);
      assert LabelIds(rows[1..]) == LabelIds(rows)[1..];
      FindRelabel(rows[1..], id, labelText, other);
    }
  }

  /** `DELETE FROM <table> WHERE id = ?` on the rows: the others keep their order. */
  function Remove(rows: seq<LabelRow>, id: string): (r: seq<LabelRow>)
    ensures forall x :: x in r <==> x in rows && x.id != id
  {
    if |rows| == 0 then []
    else if rows[0].id == id then Remove(rows[1..], id)
    else [rows[0]] + Remove(rows[1..], id)
  }

  /** A delete removes exactly that key and keeps the keys distinct. */
  lemma {:induction false} RemoveIds(rows: seq<LabelRow>, id: string)
    ensures forall x :: x in LabelIds(Remove(rows, id)) <==> x in LabelIds(rows) && x != id
    ensures Distinct(LabelIds(rows)) ==> Distinct(LabelIds(Remove(rows, id)))
  {
    if |rows| > 0 {
      var h := rows[0];
      var rest := Remove(rows[1..], id);
      RemoveIds(rows[1..], id);
      assert LabelIds(rows) == [h.id] + LabelIds(rows[1..]) by {
        assert rows == [h] + rows[1..];
        LabelIdsCons(h, rows[1..]);
      }
      assert LabelIds(Remove(rows, id)) == if h.id != id then [h.id] + LabelIds(rest) else LabelIds(rest) by {
        LabelIdsCons(h, rest);
      }
      RemoveKeyStep(h.id, LabelIds(rows[1..]), LabelIds(rest), LabelIds(rows), LabelIds(Remove(rows, id)), id);
    }
  }

  /** After a delete the id finds nothing; every other id finds what it found before. */
  lemma {:induction false} FindRemoved(rows: seq<LabelRow>, id: string, other: string)
    ensures Find(Remove(rows, id), id) == None
    ensures other != id ==> Find(Remove(rows, id), other) == Find(rows, other)
  {
    if |rows| > 0 {
      FindRemoved(rows[1..], id, other);
    }
  }

  /** The number of entries of `refs` equal to `id`: `COUNT(f.id)` over the
      left-joined flashcards whose reference column is `id`. */
  function CountOf(refs: seq<string>, id: string): (n: nat)
    ensures n <= |refs|
    ensures n == 0 <==> id !in refs
  {
    if |refs| == 0 then 0
    else (if refs[0] == id then 1 else 0) + CountOf(refs[1..], id)
  }

  datatype LabelCount = LabelCount(id: string, labelText: string, count: nat)

  /** Each row of the table with its count, in table order (the GROUP BY id). */
  function Counted(rows: seq<LabelRow>, refs: seq<string>): (r: seq<LabelCount>)
    ensures |r| == |rows|
    ensures forall i :: 0 <= i < |rows| ==>
      r[i] == LabelCount(rows[i].id, rows[i].labelText, CountOf(refs, rows[i].id))
  {
    seq(|rows|, i requires 0 <= i < |rows| => LabelCount(rows[i].id, rows[i].labelText, CountOf(refs, rows[i].id)))
  }

  // ---------------------------------------------------------------------
  // ORDER BY label: SQLite's BINARY collation compares the UTF-8 bytes,
  // which orders strings as their code-point sequences.
  // ---------------------------------------------------------------------

  predicate LabelLe(a: string, b: string)
    decreases |a|
  {
    |a| == 0 || (|b| > 0 && (a[0] < b[0] || (a[0] == b[0] && LabelLe(a[1..], b[1..]))))
  }

  lemma {:induction false} LabelLeTotal(a: string, b: string)
    ensures LabelLe(a, b) || LabelLe(b, a)
    decreases |a|
  {
    if |a| > 0 && |b| > 0 && a[0] == b[0] {
      LabelLeTotal(a[1..], b[1..]);
    }
  }

  lemma {:induction false} LabelLeTransitive(a: string, b: string, c: string)
    requires LabelLe(a, b) && LabelLe(b, c)
    ensures LabelLe(a, c)
    decreases |a|
  {
    if |a| > 0 && a[0] == b[0] && b[0] == c[0] {
      LabelLeTransitive(a[1..], b[1..], c[1..]);
    }
  }

  predicate SortedByLabel(s: seq<LabelCount>)
  {
    forall i, j :: 0 <= i < j < |s| ==> LabelLe(s[i].labelText, s[j].labelText)
  }

  /** Places `x` before the first entry whose label is not below it. */
  function InsertByLabel(x: LabelCount, s: seq<LabelCount>): (r: seq<LabelCount>)
    requires SortedByLabel(s)
    ensures SortedByLabel(r)
    ensures multiset(r) == multiset(s) + multiset{x}
  {
    if |s| == 0 then [x]
    else if LabelLe(x.labelText, s[0].labelText) then
      forall j | 0 < j < |s| ensures LabelLe(x.labelText, s[j].labelText) {
        LabelLeTransitive(x.labelText, s[0].labelText, s[j].labelText);
      }
      [x] + s
    else
      var rest := InsertByLabel(x, s[1..]);
      InsertBehind(x, s, rest);
      assert s == [s[0]] + s[1..];
      [s[0]] + rest
  }

  /** The head of `s` may stay in front of the insertion into the tail when
      `x` sorts after it. */
  lemma InsertBehind(x: LabelCount, s: seq<LabelCount>, rest: seq<LabelCount>)
    requires SortedByLabel(s) && |s| > 0 && !LabelLe(x.labelText, s[0].labelText)
    requires SortedByLabel(rest) && multiset(rest) == multiset(s[1..]) + multiset{x}
    ensures SortedByLabel([s[0]] + rest)
  {
    LabelLeTotal(x.labelText, s[0].labelText);
    forall j | 0 <= j < |rest| ensures LabelLe(s[0].labelText, rest[j].labelText) {
      assert rest[j] in multiset(rest);
      if rest[j] != x {
        assert rest[j] in multiset(s[1..]);
        var k :| 0 <= k < |s[1..]| && s[1..][k] == rest[j];
        assert s[k + 1] == rest[j];
      }
    }
    var t := [s[0]] + rest;
    forall i, j | 0 <= i < j < |t| ensures LabelLe(t[i].labelText, t[j].labelText) {
      if i > 0 {
        assert t[i] == rest[i - 1] && t[j] == rest[j - 1];
      } else {
        assert t[j] == rest[j - 1];
      }
    }
  }

  /** Insertion sort by label. */
  function SortByLabel(s: seq<LabelCount>): (r: seq<LabelCount>)
    ensures SortedByLabel(r)
    ensures multiset(r) == multiset(s)
  {
    if |s| == 0 then []
    else
      assert s == [s[0]] + s[1..];
      InsertByLabel(s[0], SortByLabel(s[1..]))
  }

  /** The `getAll` listing: every row with its count, ordered by label. */
  function Listing(rows: seq<LabelRow>, refs: seq<string>): seq<LabelCount>
  {
    SortByLabel(Counted(rows, refs))
  }

  /** The listing is ordered by label, holds each row of the table exactly
      once, and gives each row the number of references to it. */
  lemma ListingSpec(rows: seq<LabelRow>, refs: seq<string>)
    requires Distinct(LabelIds(rows))
    ensures var l := Listing(rows, refs);
      && SortedByLabel(l)
      && |l| == |rows|
      && (forall r :: r in rows <==> LabelCount(r.id, r.labelText, CountOf(refs, r.id)) in l)
      && (forall e :: e in l ==> e.count == CountOf(refs, e.id))
      && Distinct(l)
  {
    var c := Counted(rows, refs);
    var l := Listing(rows, refs);
    assert |l| == |multiset(l)| == |multiset(c)| == |c|;
    forall e | e in l ensures e in c && e.count == CountOf(refs, e.id) {
      assert e in multiset(c);
    }
    forall r | r in rows ensures LabelCount(r.id, r.labelText, CountOf(refs, r.id)) in l {
      var i :| 0 <= i < |rows| && rows[i] == r;
      assert c[i] in multiset(l);
    }
    forall r: LabelRow | LabelCount(r.id, r.labelText, CountOf(refs, r.id)) in l ensures r in rows {
      assert LabelCount(r.id, r.labelText, CountOf(refs, r.id)) in multiset(c);
    }
    DistinctCounted(rows, refs);
    DistinctPermutation(c, l);
  }

  lemma DistinctCounted(rows: seq<LabelRow>, refs: seq<string>)
    requires Distinct(LabelIds(rows))
    ensures Distinct(Counted(rows, refs))
  {
    var c := Counted(rows, refs);
    forall i, j | 0 <= i < j < |c| ensures c[i] != c[j] {
      assert LabelIds(rows)[i] != LabelIds(rows)[j];
    }
  }

  /** A permutation of a duplicate-free sequence is duplicate-free. */
  lemma DistinctPermutation<T>(a: seq<T>, b: seq<T>)
    requires Distinct(a) && multiset(a) == multiset(b)
    ensures Distinct(b)
  {
    forall i, j | 0 <= i < j < |b| ensures b[i] != b[j] {
      if b[i] == b[j] {
        var x := b[i];
        assert multiset(b)[x] >= 2 by {
          assert b == b[..i] + [b[i]] + b[i + 1..j] + [b[j]] + b[j + 1..];
          assert multiset(b) == multiset(b[..i]) + multiset{x} + multiset(b[i + 1..j]) + multiset{x} + multiset(b[j + 1..]);
        }
        OccursOnce(a, x);
      }
    }
  }

  lemma {:induction false} OccursOnce<T>(a: seq<T>, x: T)
    requires Distinct(a)
    ensures multiset(a)[x] <= 1
  {
    if |a| > 0 {
      assert a == [a[0]] + a[1..];
      assert Distinct(a[1..]);
      OccursOnce(a[1..], x);
      if a[0] == x {
        assert x !in a[1..];
      }
    }
  }
}
