/** The security middlewares: refusing requests for sensitive files, the
    per-IP sliding-window rate limit, and the shape check of a bearer token.
    `Date.now()` is the `now` parameter. */
module Security {
  import opened Strings
  import opened JsValues
  import opened Tables

  /** What a middleware does with a request: pass it on, or answer with a
      status and an error message. */
  datatype Outcome = Next | Reject(status: int, error: string)

  // ---------------------------------------------------------------------
  // blockSensitiveFiles
  // ---------------------------------------------------------------------

  /** The case-insensitive patterns of paths that are never served. */
  const SensitivePatterns: seq<string> :=
    [".sqlite", ".db", ".env", "node_modules", ".git", ".gitignore", "package.json", "package-lock.json"]

  /** Some pattern of `patterns` occurs in `s`, tried in order. */
  function MatchesAny(s: string, patterns: seq<string>): (r: bool)
    ensures r <==> exists k :: 0 <= k < |patterns| && Contains(s, patterns[k])
  {
    if |patterns| == 0 then false
    else if Contains(s, patterns[0]) then true
    else
      var rest := MatchesAny(s, patterns[1..]);
      assert forall k :: 0 < k < |patterns| ==> patterns[k] == patterns[1..][k - 1];
      rest
  }

  /** `blockSensitiveFiles`: 403 exactly when the lower-cased path contains a
      sensitive pattern; otherwise the request goes on. */
  function BlockSensitiveFiles(path: string): (r: Outcome)
    ensures r != Next <==> exists k :: 0 <= k < |SensitivePatterns| && Contains(Lower(path), SensitivePatterns[k])
    ensures r != Next ==> r == Reject(403, "Access denied")
  {
    if MatchesAny(Lower(path), SensitivePatterns) then Reject(403, "Access denied") else Next
  }

  /** The `.gitignore` pattern never decides anything: every path it
      matches is already matched by `.git`. The seven other patterns
      decide the same. */
  lemma GitignoreRedundant(path: string)
    ensures BlockSensitiveFiles(path) != Next <==>
      exists k :: 0 <= k < |SensitivePatterns| && k != 5 && Contains(Lower(path), SensitivePatterns[k])
  {
    var s := Lower(path);
    if Contains(s, ".gitignore") {
      ContainsPiece(s, ".gitignore", 0, 4);
      assert ".gitignore"[0..4] == ".git";
      assert Contains(s, SensitivePatterns[4]);
    }
  }

  /** Case does not matter: an upper-case spelling of a database file is refused. */
  lemma DatabaseFileRefused()
    ensures BlockSensitiveFiles("/data/APP.SQLITE") == Reject(403, "Access denied")
  {
    var s := Lower("/data/APP.SQLITE");
    assert s == "/data/app.sqlite" by {
      assert LowerChar('A') == 'a' && LowerChar('P') == 'p' && LowerChar('S') == 's' && LowerChar('Q') == 'q'
        && LowerChar('L') == 'l' && LowerChar('I') == 'i' && LowerChar('T') == 't' && LowerChar('E') == 'e'
        && LowerChar('/') == '/' && LowerChar('d') == 'd' && LowerChar('a') == 'a' && LowerChar('t') == 't'
        && LowerChar('.') == '.';
    }
    assert OccursAt(s, ".sqlite", 9);
    ContainsIffOccurs(s, ".sqlite");
    assert Contains(s, SensitivePatterns[0]);
  }

  // ---------------------------------------------------------------------
  // simpleRateLimit
  // ---------------------------------------------------------------------

  /** The timestamps that still count at `now`: those strictly after the
      start of the window, in their order. */
  function Recent(log: seq<int>, now: int, windowMs: int): (r: seq<int>)
    ensures |r| <= |log|
    ensures forall t :: t in r <==> t in log && t > now - windowMs
  {
    Filter(log, t => t > now - windowMs)
  }

  /** A log the window does not prune is kept whole. */
  lemma {:induction false} RecentKeepsAll(log: seq<int>, now: int, windowMs: int)
    requires forall t :: t in log ==> t > now - windowMs
    ensures Recent(log, now, windowMs) == log
  {
    if |log| > 0 {
      assert forall t :: t in log[1..] ==> t in log;
      RecentKeepsAll(log[1..], now, windowMs);
      assert log[0] in log;
      assert Recent(log, now, windowMs) == [log[0]] + Recent(log[1..], now, windowMs);
      assert log == [log[0]] + log[1..];
    }
  }

  /** A log entirely before the window is pruned away. */
  lemma {:induction false} RecentDropsAll(log: seq<int>, now: int, windowMs: int)
    requires forall t :: t in log ==> t <= now - windowMs
    ensures Recent(log, now, windowMs) == []
  {
    if |log| > 0 {
      assert forall t :: t in log[1..] ==> t in log;
      RecentDropsAll(log[1..], now, windowMs);
      assert log[0] in log;
      assert Recent(log, now, windowMs) == Recent(log[1..], now, windowMs);
    }
  }

  /** The decision on one request whose IP has `log`: accepted exactly when
      fewer than `maxRequests` timestamps are recent, and then the log
      becomes the recent timestamps followed by `now`, at most
      `maxRequests` long; a rejected request leaves the log as it was. */
  function Admit(log: seq<int>, now: int, maxRequests: int, windowMs: int): (r: (bool, seq<int>))
    ensures r.0 <==> |Recent(log, now, windowMs)| < maxRequests
    ensures r.0 ==> r.1 == Recent(log, now, windowMs) + [now] && |r.1| <= maxRequests
    ensures !r.0 ==> r.1 == log
  {
    var recent := Recent(log, now, windowMs);
    if |recent| >= maxRequests then (false, log) else (true, recent + [now])
  }

  /** The logs of all IPs, shared by every limiter the application creates. */
  class RequestCounts {
    var logs: map<string, seq<int>>

    constructor ()
      ensures logs == map[]
    {
      logs := map[];
    }

    /** Every stored log is no longer than `maxRequests` allows (for the
        limits used with this store). */
    ghost predicate Bounded(maxRequests: int)
      reads this
    {
      forall ip :: ip in logs ==> |logs[ip]| <= if maxRequests < 0 then 0 else maxRequests
    }

    /** The log stored for `ip`; an IP seen for the first time has an empty one. */
    function LogOf(ip: string): seq<int>
      reads this
    {
      if ip in logs then logs[ip] else []
    }

    /** One request from `ip` at `now` through `simpleRateLimit(maxRequests,
        windowMs)`: an unseen IP first gets an empty log; then the request
        is refused with 429 when `maxRequests` timestamps are still recent,
        leaving the stored log untouched, or accepted, storing the pruned log
        with `now` appended. No other IP's log changes. */
    method Limit(maxRequests: int, windowMs: int, ip: string, now: int) returns (r: Outcome)
      modifies this
      ensures var decision := Admit(old(LogOf(ip)), now, maxRequests, windowMs);
        && logs == old(logs)[ip := decision.1]
        && (r == Next <==> decision.0)
        && (r != Next ==> r == Reject(429, "Too many requests"))
      ensures forall other :: other != ip ==> LogOf(other) == old(LogOf(other))
      ensures old(Bounded(maxRequests)) ==> Bounded(maxRequests)
    {
      if ip !in logs {
        logs := logs[ip := []];
      }
      var requests := logs[ip];
      requests := Recent(requests, now, windowMs);
      if |requests| >= maxRequests {
        return Reject(429, "Too many requests");
      }
      requests := requests + [now];
      logs := logs[ip := requests];
      r := Next;
    }
  }

  /** Replays requests from one IP at the given times against `log`: how
      many were accepted, and the log afterwards. */
  function Replay(log: seq<int>, times: seq<int>, maxRequests: int, windowMs: int): (int, seq<int>)
    decreases |times|
  {
    if |times| == 0 then (0, log)
    else
      var step := Admit(log, times[0], maxRequests, windowMs);
      var rest := Replay(step.1, times[1..], maxRequests, windowMs);
      (rest.0 + (if step.0 then 1 else 0), rest.1)
  }

  /** The guarantee of the limit: in a burst of requests whose times, like
      the timestamps already logged, lie within one window
      `[start, start + windowMs)`, no more than `maxRequests` requests are
      accepted in all, counting those already logged. */
  lemma {:induction false} BurstBound(log: seq<int>, times: seq<int>, maxRequests: int, windowMs: int, start: int)
    decreases |times|
    requires |log| <= maxRequests
    requires forall t :: t in log ==> start <= t
    requires forall t :: t in times ==> start <= t < start + windowMs
    ensures |log| + Replay(log, times, maxRequests, windowMs).0 <= maxRequests
    ensures Replay(log, times, maxRequests, windowMs).0 >= 0
  {
    if |times| > 0 {
      var now := times[0];
      assert now in times;
      RecentKeepsAll(log, now, windowMs);
      var step := Admit(log, now, maxRequests, windowMs);
      assert step.1 == log || step.1 == log + [now];
      assert forall t :: t in step.1 ==> start <= t;
      assert forall t :: t in times[1..] ==> t in times;
      BurstBound(step.1, times[1..], maxRequests, windowMs, start);
    }
  }

  /** Once the window has moved past every logged timestamp, a request is
      accepted again, whatever was logged before. */
  lemma WindowReopens(log: seq<int>, now: int, maxRequests: int, windowMs: int)
    requires maxRequests > 0
    requires forall t :: t in log ==> t <= now - windowMs
    ensures Admit(log, now, maxRequests, windowMs) == (true, [now])
  {
    RecentDropsAll(log, now, windowMs);
    assert [] + [now] == [now];
  }

  // ---------------------------------------------------------------------
  // validateTokenFormat
  // ---------------------------------------------------------------------

  /** `[A-Za-z0-9_-]`. */
  predicate IsTokenChar(c: char)
  {
    'A' <= c <= 'Z' || 'a' <= c <= 'z' || '0' <= c <= '9' || c == '_' || c == '-'
  }

  /** One non-empty run of token characters. */
  predicate IsSegment(s: string)
  {
    |s| > 0 && forall i :: 0 <= i < |s| ==> IsTokenChar(s[i])
  }

  /** `/^[A-Za-z0-9_-]+\.[A-Za-z0-9_-]+\.[A-Za-z0-9_-]+$/`: three segments
      separated by dots (a segment cannot hold a dot). */
  predicate JwtShaped(token: string)
  {
    var parts := Split(token, '.');
    |parts| == 3 && IsSegment(parts[0]) && IsSegment(parts[1]) && IsSegment(parts[2])
  }

  /** `validateTokenFormat`: without an Authorization header (or with an
      empty one) the request goes on; otherwise the header must be exactly
      "Bearer", one space, and a token of the JWT shape. */
  function ValidateTokenFormat(header: Option<string>): (r: Outcome)
    ensures header.None? || header == Some("") ==> r == Next
    ensures r != Next ==> r == Reject(400, "Invalid Authorization header format") || r == Reject(400, "Invalid JWT format")
    ensures header.Some? && header.value != "" ==>
      var parts := Split(header.value, ' ');
      && (r == Reject(400, "Invalid Authorization header format") <==> |parts| != 2 || parts[0] != "Bearer")
      && (r == Reject(400, "Invalid JWT format") <==> |parts| == 2 && parts[0] == "Bearer" && !JwtShaped(parts[1]))
  {
    match header
    case None => Next
    case Some(h) =>
      if h == "" then Next
      else
        var parts := Split(h, ' ');
        if |parts| != 2 || parts[0] != "Bearer" then Reject(400, "Invalid Authorization header format")
        else if !JwtShaped(parts[1]) then Reject(400, "Invalid JWT format")
        else Next
  }

  /** A header built from three segments is accepted. */
  lemma {:induction false} WellFormedAccepted(a: string, b: string, c: string)
    requires IsSegment(a) && IsSegment(b) && IsSegment(c)
    ensures ValidateTokenFormat(Some("Bearer " + Join([a, b, c], '.'))) == Next
  {
    var token := Join([a, b, c], '.');
    SegmentNoSep(a, '.');
    SegmentNoSep(b, '.');
    SegmentNoSep(c, '.');
    JoinSplit([a, b, c], '.');
    assert Split(token, '.') == [a, b, c];
    SegmentNoSep(a, ' ');
    SegmentNoSep(b, ' ');
    SegmentNoSep(c, ' ');
    NoSpaceInJoin(a, b, c);
    SplitNoSep(token, ' ');
    assert "Bearer " == "Bearer" + [' '];
    SplitPrefix("Bearer", token, ' ');
  }

  /** A non-empty header is refused for its format exactly when it is not
      "Bearer", one space and a token without spaces; a header of that form
      is refused for its token exactly when the token is not JWT-shaped. */
  lemma BearerShape(h: string)
    requires h != ""
    ensures ValidateTokenFormat(Some(h)) == Reject(400, "Invalid Authorization header format") <==>
      !(|h| >= 7 && h[..7] == "Bearer " && ' ' !in h[7..])
    ensures |h| >= 7 && h[..7] == "Bearer " && ' ' !in h[7..] ==>
      (ValidateTokenFormat(Some(h)) == Reject(400, "Invalid JWT format") <==> !JwtShaped(h[7..]))
  {
    var parts := Split(h, ' ');
    if |h| >= 7 && h[..7] == "Bearer " && ' ' !in h[7..] {
      var t := h[7..];
      assert h == "Bearer" + [' '] + t;
      SplitNoSep(t, ' ');
      SplitPrefix("Bearer", t, ' ');
      assert parts == ["Bearer", t];
    } else if |parts| == 2 && parts[0] == "Bearer" {
      SplitJoin(h, ' ');
      assert false;
    }
  }

  /** An accepted, non-empty header is "Bearer " followed by three segments
      joined by dots. */
  lemma AcceptedWellFormed(h: string)
    requires h != "" && ValidateTokenFormat(Some(h)) == Next
    ensures exists token :: h == "Bearer " + token && JwtShaped(token) && Join(Split(token, '.'), '.') == token
  {
    var parts := Split(h, ' ');
    SplitJoin(h, ' ');
    assert Join(parts, ' ') == parts[0] + [' '] + Join(parts[1..], ' ');
    assert parts[1..] == [parts[1]];
    assert h == "Bearer " + parts[1];
    SplitJoin(parts[1], '.');
  }

  lemma SegmentNoSep(s: string, sep: char)
    requires IsSegment(s) && !IsTokenChar(sep)
    ensures sep !in s
  {
  }

  lemma NoSpaceInJoin(a: string, b: string, c: string)
    requires ' ' !in a && ' ' !in b && ' ' !in c
    ensures ' ' !in Join([a, b, c], '.')
  {
    assert [a, b, c][1..] == [b, c];
    assert [b, c][1..] == [c];
    assert Join([c], '.') == c;
    assert Join([b, c], '.') == b + ['.'] + c;
    assert Join([a, b, c], '.') == a + ['.'] + Join([b, c], '.');
  }
}
