/** Pagination as the controllers and repositories do it: the `page` and
    `pageSize` query parameters read with `parseInt` and clamped, the
    `LIMIT ? OFFSET ?` window SQLite applies, and `Math.ceil(total / pageSize)`. */
module Paging {
  import opened JsValues
  import opened Strings

  // ---------------------------------------------------------------------
  // parseInt(x) without a radix
  // ---------------------------------------------------------------------

  predicate IsHexDigit(c: char)
  {
    IsDigit(c) || 'a' <= c <= 'f' || 'A' <= c <= 'F'
  }

  predicate IsRadixDigit(c: char, hex: bool)
  {
    if hex then IsHexDigit(c) else IsDigit(c)
  }

  function HexValue(c: char): (d: nat)
    requires IsHexDigit(c)
    ensures d < 16
  {
    if IsDigit(c) then DigitValue(c)
    else if 'a' <= c <= 'f' then c as int - 'a' as int + 10
    else c as int - 'A' as int + 10
  }

  /** The longest prefix of `s` made of digits of the radix. */
  function DigitRun(s: string, hex: bool): (r: string)
    ensures |r| <= |s| && r == s[..|r|]
    ensures forall k :: 0 <= k < |r| ==> IsRadixDigit(r[k], hex)
    ensures |r| < |s| ==> !IsRadixDigit(s[|r|], hex)
  {
    if |s| > 0 && IsRadixDigit(s[0], hex) then [s[0]] + DigitRun(s[1..], hex) else []
  }

  /** The value of a run of digits, most significant first. */
  function RunValue(s: string, hex: bool): nat
    requires forall k :: 0 <= k < |s| ==> IsRadixDigit(s[k], hex)
  {
    if |s| == 0 then 0
    else
      var init := s[..|s| - 1];
      var last := s[|s| - 1];
      assert forall k :: 0 <= k < |init| ==> init[k] == s[k];
      assert IsRadixDigit(last, hex);
      if hex then RunValue(init, hex) * 16 + HexValue(last)
      else RunValue(init, hex) * 10 + DigitValue(last)
  }

  /** The unsigned part of `parseInt`: a `0x`/`0X` prefix selects radix 16,
      and parsing stops at the first character that is not a digit. */
  function UnsignedPart(s: string): Option<nat>
  {
    var hex := |s| >= 2 && s[0] == '0' && (s[1] == 'x' || s[1] == 'X');
    var body := if hex then s[2..] else s;
    var run := DigitRun(body, hex);
    if |run| == 0 then None else Some(RunValue(run, hex))
  }

  /** `parseInt(x)`: `None` is NaN (an absent parameter reads as the string
      "undefined", which has no digits). Leading whitespace is skipped and
      one sign is accepted. */
  function ParseInt(x: Option<string>): Option<int>
  {
    match x
    case None => None
    case Some(text) => ParseSigned(TrimStart(text))
  }

  /** One optional sign, then the unsigned part. */
  function ParseSigned(s: string): Option<int>
  {
    if |s| > 0 && s[0] == '-' then
      match UnsignedPart(s[1..])
      case None => None
      case Some(n) => var v: int := n; Some(-v)
    else if |s| > 0 && s[0] == '+' then UnsignedPart(s[1..])
    else UnsignedPart(s)
  }

  lemma {:induction false} DigitRunAll(s: string)
    requires AllDigits(s)
    ensures DigitRun(s, false) == s
  {
    if |s| > 0 {
      assert AllDigits(s[1..]) by { assert forall k :: 0 <= k < |s| - 1 ==> s[1..][k] == s[k + 1]; }
      DigitRunAll(s[1..]);
      assert [s[0]] + s[1..] == s;
    }
  }

  lemma {:induction false} RunValueDecimal(s: string)
    requires AllDigits(s)
    ensures RunValue(s, false) == ParseNat(s)
  {
    if |s| > 0 {
      var init := s[..|s| - 1];
      assert forall k :: 0 <= k < |init| ==> init[k] == s[k];
      RunValueDecimal(init);
    }
  }

  /** The digits of a natural number read back as that number. */
  lemma UnsignedPartNat(m: nat)
    ensures UnsignedPart(NatString(m)) == Some(m)
  {
    var digits := NatString(m);
    assert !(|digits| >= 2 && digits[0] == '0');
    DigitRunAll(digits);
    RunValueDecimal(digits);
    NatStringRoundTrip(m);
  }

  /** `parseInt(String(n)) == n`: the decimal rendering reads back. */
  lemma ParseIntDecimal(n: int)
    ensures ParseInt(Some(DecimalString(n))) == Some(n)
  {
    var text := DecimalString(n);
    assert !IsJsWhitespace(text[0]) by {
      assert text[0] == '-' || IsDigit(text[0]);
    }
    assert TrimStart(text) == text;
    if n < 0 {
      UnsignedPartNat(-n);
      assert text[1..] == NatString(-n);
      assert ParseSigned(text) == Some(n);
    } else {
      UnsignedPartNat(n);
      assert ParseSigned(text) == Some(n);
    }
  }

  // ---------------------------------------------------------------------
  // The query-parameter clamps of the paginated list controllers
  // ---------------------------------------------------------------------

  /** `parseInt(req.query.page) || 1`: NaN and 0 give 1; anything else,
      negative numbers included, is kept. */
  function PageParam(x: Option<string>): (page: int)
    ensures page != 0
    ensures ParseInt(x).Some? && ParseInt(x).value != 0 ==> page == ParseInt(x).value
    ensures ParseInt(x).None? || ParseInt(x) == Some(0) ==> page == 1
  {
    match ParseInt(x)
    case None => 1
    case Some(n) => if n == 0 then 1 else n
  }

  /** `Math.min(parseInt(req.query.pageSize) || 20, 100)`. */
  function PageSizeParam(x: Option<string>): (size: int)
    ensures size != 0 && size <= 100
    ensures ParseInt(x).None? || ParseInt(x) == Some(0) ==> size == 20
    ensures ParseInt(x).Some? && ParseInt(x).value != 0 ==>
      size == if ParseInt(x).value < 100 then ParseInt(x).value else 100
  {
    var n := match ParseInt(x) case None => 20 case Some(v) => if v == 0 then 20 else v;
    if n < 100 then n else 100
  }

  /** A size written in decimal from 1 to 100 is taken as it is, a larger one
      is cut to 100, and a missing one defaults to 20; a negative size passes
      the cap unchanged, which SQLite then reads as "no limit". */
  lemma PageSizeCases(n: int)
    ensures 1 <= n <= 100 ==> PageSizeParam(Some(DecimalString(n))) == n
    ensures n > 100 ==> PageSizeParam(Some(DecimalString(n))) == 100
    ensures n < 0 ==> PageSizeParam(Some(DecimalString(n))) == n
    ensures PageSizeParam(None) == 20
  {
    ParseIntDecimal(n);
  }

  // ---------------------------------------------------------------------
  // LIMIT ? OFFSET ? and the page count
  // ---------------------------------------------------------------------

  /** SQLite's `LIMIT limit OFFSET offset`: a negative offset counts as 0 and
      a negative limit means no limit. */
  function Window<T>(s: seq<T>, limit: int, offset: int): (w: seq<T>)
    ensures limit >= 0 ==> |w| <= limit
    ensures offset >= |s| ==> w == []
  {
    var start := if offset < 0 then 0 else if offset > |s| then |s| else offset;
    var rest := s[start..];
    if limit < 0 || limit >= |rest| then rest else rest[..limit]
  }

  /** The window is the slice of `s` the offset and limit select. */
  lemma WindowSlice<T>(s: seq<T>, limit: int, offset: int)
    requires 0 <= offset
    ensures var lo := if offset > |s| then |s| else offset;
      var hi := if limit < 0 || offset + limit > |s| then |s| else offset + limit;
      lo <= hi && Window(s, limit, offset) == s[lo..hi]
  {
  }

  lemma WindowSubset<T>(s: seq<T>, limit: int, offset: int)
    ensures forall x :: x in Window(s, limit, offset) ==> x in s
  {
  }

  /** `Math.ceil(total / pageSize)`, for the non-zero page sizes the
      controllers produce (the quotient is rounded up, also when negative). */
  function PageCount(total: nat, pageSize: int): int
    requires pageSize != 0
  {
    if pageSize > 0 then
      if total % pageSize == 0 then total / pageSize else total / pageSize + 1
    else -(total / -pageSize)
  }

  /** For a positive page size the count is the least number of pages that
      hold `total` items, and it is 0 exactly when there is nothing. */
  lemma PageCountSpec(total: nat, pageSize: int)
    requires pageSize > 0
    ensures var n := PageCount(total, pageSize);
      n >= 0 && (n - 1) * pageSize < total <= n * pageSize
    ensures PageCount(total, pageSize) == 0 <==> total == 0
  {
    var n := PageCount(total, pageSize);
    var q := total / pageSize;
    var r := total % pageSize;
    assert total == q * pageSize + r;
    assert (q + 1) * pageSize == q * pageSize + pageSize;
    assert (q - 1) * pageSize == q * pageSize - pageSize;
  }

  /** Page `k` (from 1) of `s`, as `getAll` computes it. */
  function Page<T>(s: seq<T>, pageSize: int, k: int): seq<T>
  {
    Window(s, pageSize, (k - 1) * pageSize)
  }

  /** Pages 1 to `n` put together. */
  function FirstPages<T>(s: seq<T>, pageSize: int, n: nat): seq<T>
  {
    if n == 0 then [] else FirstPages(s, pageSize, n - 1) + Page(s, pageSize, n)
  }

  /** The first `n` pages are the first `n * pageSize` items. */
  lemma {:induction false} FirstPagesPrefix<T>(s: seq<T>, pageSize: int, n: nat)
    requires pageSize > 0
    ensures FirstPages(s, pageSize, n) == s[..if n * pageSize > |s| then |s| else n * pageSize]
  {
    if n > 0 {
      FirstPagesPrefix(s, pageSize, n - 1);
      var m := (n - 1) * pageSize;
      PageOffsets(n, pageSize);
      assert Page(s, pageSize, n) == Window(s, pageSize, m);
      PrefixThenWindow(s, pageSize, m);
    }
  }

  /** The offset of page `n` is one page past that of page `n - 1`. */
  lemma PageOffsets(n: nat, pageSize: int)
    requires n > 0 && pageSize > 0
    ensures (n - 1) * pageSize >= 0
    ensures n * pageSize == (n - 1) * pageSize + pageSize
  {
  }

  /** The items before offset `m` followed by the window at `m` are the items before `m + pageSize`. */
  lemma PrefixThenWindow<T>(s: seq<T>, pageSize: int, m: int)
    requires pageSize > 0 && m >= 0
    ensures s[..if m > |s| then |s| else m] + Window(s, pageSize, m)
         == s[..if m + pageSize > |s| then |s| else m + pageSize]
  {
    var lo := if m > |s| then |s| else m;
    var hi := if m + pageSize > |s| then |s| else m + pageSize;
    WindowSlice(s, pageSize, m);
    assert s[..lo] + s[lo..hi] == s[..hi];
  }

  /** Pages 1 to `totalPages` hold every item exactly once, in order, and no
      page holds more than `pageSize` items. */
  lemma PagesPartition<T>(s: seq<T>, pageSize: int, k: int)
    requires pageSize > 0
    ensures PageCount(|s|, pageSize) >= 0
    ensures FirstPages(s, pageSize, PageCount(|s|, pageSize)) == s
    ensures |Page(s, pageSize, k)| <= pageSize
  {
    PageCountSpec(|s|, pageSize);
    FirstPagesPrefix(s, pageSize, PageCount(|s|, pageSize));
  }

  /** A page past the last one is empty. */
  lemma PastTheEnd<T>(s: seq<T>, pageSize: int, k: int)
    requires pageSize > 0 && k > PageCount(|s|, pageSize)
    ensures Page(s, pageSize, k) == []
  {
    PageCountSpec(|s|, pageSize);
    var n := PageCount(|s|, pageSize);
    MulMonotone(n, k - 1, pageSize);
  }

  lemma MulMonotone(a: int, b: int, c: int)
    requires a <= b && c > 0
    ensures a * c <= b * c
  {
    assert b * c - a * c == (b - a) * c;
  }

  /** A negative page size drops the limit: every item from the offset on is returned. */
  lemma NegativeSizeUnlimited<T>(s: seq<T>, pageSize: int, k: int)
    requires pageSize < 0 && k >= 1
    ensures Page(s, pageSize, k) == s
  {
    assert (k - 1) * pageSize <= 0;
  }
}
