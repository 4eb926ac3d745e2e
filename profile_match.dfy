/** The body scan of the share-link handler: the regular expression
    `/content="fb:\/\/profile\/(\d+)"/` applied with `String.prototype.match`
    (no `g` flag), which yields the capture group of the leftmost match or
    nothing. */
module ProfileMatch {
  import opened Wrappers

  /** The literal text in front of the captured digits. */
  const Prefix: string := "content=\"fb://profile/"

  /** The literal text after the captured digits. */
  const Quote: char := '"'

  /** `\d`: the ASCII digits only. */
  predicate IsDigit(c: char) {
    '0' <= c <= '9'
  }

  predicate AllDigits(s: string) {
    forall k :: 0 <= k < |s| ==> IsDigit(s[k])
  }

  /** The regular expression matches `body` starting at index `i`, and its
      capture group `(\d+)` holds `id`: the prefix, one or more digits, a quote. */
  ghost predicate CaptureAt(body: string, i: nat, id: string) {
    var p := i + |Prefix|;
    && p + |id| < |body|
    && body[i..p] == Prefix
    && |id| >= 1
    && AllDigits(id)
    && body[p..p + |id|] == id
    && body[p + |id|] == Quote
  }

  /** Some way of matching the pattern starts at index `i`. */
  ghost predicate MatchesAt(body: string, i: nat) {
    exists id :: CaptureAt(body, i, id)
  }

  /** `id` is the capture of the match at `i`, and no earlier index matches:
      what a non-global `match` reports. */
  ghost predicate IsLeftmostCapture(body: string, i: nat, id: string) {
    && CaptureAt(body, i, id)
    && forall j: nat :: j < i ==> !MatchesAt(body, j)
  }

  /** Length of the longest run of digits in `s` starting at index `j`. */
  function DigitRunLen(s: string, j: nat): (n: nat)
    requires j <= |s|
    ensures j + n <= |s|
    ensures forall k :: j <= k < j + n ==> IsDigit(s[k])
    ensures j + n == |s| || !IsDigit(s[j + n])
    decreases |s| - j
  {
    if j < |s| && IsDigit(s[j]) then 1 + DigitRunLen(s, j + 1) else 0
  }

  /** A run of `k` digits that is not followed by a digit is the longest run. */
  lemma DigitRunLenIsExact(s: string, j: nat, k: nat)
    requires j + k <= |s|
    requires forall t :: j <= t < j + k ==> IsDigit(s[t])
    requires j + k == |s| || !IsDigit(s[j + k])
    ensures DigitRunLen(s, j) == k
  {
  }

  /** Because a digit is never a quote, `\d+` can only stop at the end of the
      digit run: the capture at a given index is the whole run, never a proper
      prefix of it. */
  lemma CaptureIsWholeRun(body: string, i: nat, id: string)
    requires CaptureAt(body, i, id)
    ensures i + |Prefix| <= |body|
    ensures |id| == DigitRunLen(body, i + |Prefix|)
    ensures id == body[i + |Prefix|..i + |Prefix| + |id|]
  {
    var p := i + |Prefix|;
    forall t | p <= t < p + |id|
      ensures IsDigit(body[t])
    {
      assert body[t] == body[p..p + |id|][t - p];
    }
    DigitRunLenIsExact(body, p, |id|);
  }

  /** A match at a given start index determines its capture. */
  lemma CaptureUnique(body: string, i: nat, id1: string, id2: string)
    requires CaptureAt(body, i, id1) && CaptureAt(body, i, id2)
    ensures id1 == id2
  {
    CaptureIsWholeRun(body, i, id1);
    CaptureIsWholeRun(body, i, id2);
  }

  /** Tries the pattern at start index `i` only. */
  function MatchAt(body: string, i: nat): (r: Option<string>)
    ensures r.Some? <==> MatchesAt(body, i)
    ensures r.Some? ==> CaptureAt(body, i, r.value)
  {
    var p := i + |Prefix|;
    if p <= |body| && body[i..p] == Prefix then
      var n := DigitRunLen(body, p);
      if 1 <= n && p + n < |body| && body[p + n] == Quote then
        assert CaptureAt(body, i, body[p..p + n]);
        Some(body[p..p + n])
      else
        assert !MatchesAt(body, i) by {
          if MatchesAt(body, i) {
            var id :| CaptureAt(body, i, id);
            CaptureIsWholeRun(body, i, id);
          }
        }
        None
    else
      None
  }

  /** A match of the pattern together with the index where it starts. */
  datatype Match = Match(start: nat, id: string)

  /** Tries the start indices `i`, `i + 1`, ... in ascending order and stops
      at the first one where the pattern matches. */
  function FindFrom(body: string, i: nat): (r: Option<Match>)
    requires i <= |body|
    ensures r.Some? ==> i <= r.value.start && CaptureAt(body, r.value.start, r.value.id)
    ensures r.Some? ==> forall j: nat :: i <= j < r.value.start ==> !MatchesAt(body, j)
    ensures r.None? ==> forall j: nat :: i <= j ==> !MatchesAt(body, j)
    decreases |body| - i
  {
    if i == |body| then
      None
    else
      match MatchAt(body, i)
      case Some(id) => Some(Match(i, id))
      case None => FindFrom(body, i + 1)
  }

  /** `body.match(/content="fb:\/\/profile\/(\d+)"/)`, reduced to its capture
      group `match[1]`: the digits of the leftmost match, or nothing. */
  function FindProfileId(body: string): (r: Option<string>)
    ensures r.None? <==> forall i: nat :: !MatchesAt(body, i)
    ensures r.Some? ==> exists i: nat :: IsLeftmostCapture(body, i, r.value)
    ensures r.Some? ==> |r.value| >= 1 && AllDigits(r.value)
  {
    match FindFrom(body, 0)
    case Some(m) =>
      assert MatchesAt(body, m.start);
      assert IsLeftmostCapture(body, m.start, m.id);
      Some(m.id)
    case None => None
  }

  /** Two leftmost captures are the same capture at the same index. */
  lemma LeftmostCaptureUnique(body: string, i1: nat, id1: string, i2: nat, id2: string)
    requires IsLeftmostCapture(body, i1, id1) && IsLeftmostCapture(body, i2, id2)
    ensures i1 == i2 && id1 == id2
  {
    assert MatchesAt(body, i1) && MatchesAt(body, i2);
    CaptureUnique(body, i1, id1, id2);
  }

  /** Conversely to `FindProfileId`'s contract, a leftmost capture is what
      the scan returns: the scan and the regular-expression semantics agree. */
  lemma LeftmostCaptureIsFound(body: string, i: nat, id: string)
    requires IsLeftmostCapture(body, i, id)
    ensures FindProfileId(body) == Some(id)
  {
    assert MatchesAt(body, i);
    var found := FindProfileId(body).value;
    var i' :| IsLeftmostCapture(body, i', found);
    LeftmostCaptureUnique(body, i, id, i', found);
  }
}

/** Worked examples of the scan on small pages. */
module ProfileMatchExamples {
  import opened Wrappers
  import opened ProfileMatch

  /** The pattern cannot start at a character other than `c`, the first
      letter of the prefix. */
  lemma NoMatchOffC(body: string, i: nat)
    requires i < |body| && body[i] != 'c'
    ensures MatchAt(body, i) == None
  {
    if i + |Prefix| <= |body| {
      assert body[i..i + |Prefix|][0] == body[i];
    }
  }

  /** The prefix holds a single `c`, at its start. */
  lemma PrefixHasOneC(k: nat)
    requires 1 <= k < |Prefix|
    ensures Prefix[k] != 'c'
  {
  }

  /** The id is read from the page's app-link meta tag. */
  lemma FindsIdInMetaTag()
    ensures FindProfileId("<meta " + Prefix + ("100042" + "\" />")) == Some("100042")
  {
    var lead, tail := "<meta ", "100042" + "\" />";
    var body := lead + Prefix + tail;
    assert body[6..28] == Prefix by {
      assert body == lead + (Prefix + tail);
      assert body[|lead|..] == Prefix + tail;
    }
    assert body[28..34] == "100042" by {
      assert body[28..] == tail;
    }
    assert CaptureAt(body, 6, "100042");
    forall j: nat | j < 6
      ensures !MatchesAt(body, j)
    {
      NoMatchOffC(body, j);
    }
    assert IsLeftmostCapture(body, 6, "100042");
    LeftmostCaptureIsFound(body, 6, "100042");
  }

  /** No index of `body` beyond the first can start a match. */
  lemma OnlyFirstIndexCanMatch(body: string, rest: string)
    requires body == Prefix + rest
    requires forall k :: 0 <= k < |rest| ==> rest[k] != 'c'
    ensures forall i: nat :: 1 <= i ==> MatchAt(body, i) == None
  {
    forall i: nat | 1 <= i
      ensures MatchAt(body, i) == None
    {
      if i < |Prefix| {
        PrefixHasOneC(i);
        NoMatchOffC(body, i);
      } else if i < |body| {
        assert body[i] == rest[i - |Prefix|];
        NoMatchOffC(body, i);
      }
    }
  }

  /** An empty digit run, or digits not closed by a quote, match nothing. */
  lemma RejectsMalformedIds()
    ensures FindProfileId(Prefix + "\"") == None
    ensures FindProfileId(Prefix + "12x\"") == None
  {
    var empty := Prefix + "\"";
    assert empty[0..|Prefix|] == Prefix;
    assert DigitRunLen(empty, |Prefix|) == 0;
    assert MatchAt(empty, 0) == None;
    OnlyFirstIndexCanMatch(empty, "\"");
    forall i: nat
      ensures !MatchesAt(empty, i)
    {
      assert MatchAt(empty, i) == None;
    }
    var open := Prefix + "12x\"";
    assert open[0..|Prefix|] == Prefix;
    DigitRunLenIsExact(open, |Prefix|, 2);
    assert open[|Prefix| + 2] == 'x';
    assert MatchAt(open, 0) == None;
    OnlyFirstIndexCanMatch(open, "12x\"");
    forall i: nat
      ensures !MatchesAt(open, i)
    {
      assert MatchAt(open, i) == None;
    }
  }

  /** Of two ids the first one on the page is reported. */
  lemma ReportsFirstOfTwo()
    ensures FindProfileId(Prefix + "7\"" + Prefix + "8\"") == Some("7")
  {
    var tail := "7\"" + Prefix + "8\"";
    var body := Prefix + tail;
    assert body == Prefix + "7\"" + Prefix + "8\"";
    assert body[0..|Prefix|] == Prefix;
    assert body[|Prefix|..|Prefix| + 1] == "7" by {
      assert body[|Prefix|..] == tail;
    }
    assert IsLeftmostCapture(body, 0, "7");
    LeftmostCaptureIsFound(body, 0, "7");
  }
}
