/**
 * The style-marker protocol: an assistant reply carries zero or more
 * `<!--STYLE:{json}-->` annotations. parseStyleResults finds them with the
 * global regular expression /<!--STYLE:(.*?)-->/g, hands each captured payload
 * to JSON.parse (keeping the values that parse, dropping the others and going
 * on), and removes every matched span from the text before trimming it.
 *
 * JSON.parse is a parameter `parse`: None stands for "JSON.parse threw".
 */
module Markers {
  import opened Wrappers
  import opened JsText

  const Opener: string := "<!--STYLE:"
  const Closer: string := "-->"

  /** One match of the pattern: the span s[start..end] and its capture group. */
  datatype Match = Match(start: nat, end: nat, payload: string)

  /** The opener starts at position p (spelled out character by character). */
  predicate OpensAt(s: string, p: nat) {
    && p + 10 <= |s|
    && s[p] == '<' && s[p + 1] == '!' && s[p + 2] == '-' && s[p + 3] == '-'
    && s[p + 4] == 'S' && s[p + 5] == 'T' && s[p + 6] == 'Y' && s[p + 7] == 'L' && s[p + 8] == 'E'
    && s[p + 9] == ':'
  }

  /** The closer starts at position j. */
  predicate ClosesAt(s: string, j: nat) {
    j + 3 <= |s| && s[j] == '-' && s[j + 1] == '-' && s[j + 2] == '>'
  }

  lemma DelimitersSpelledOut(s: string, p: nat)
    ensures OpensAt(s, p) <==> p + |Opener| <= |s| && s[p..p + |Opener|] == Opener
    ensures ClosesAt(s, p) <==> p + |Closer| <= |s| && s[p..p + |Closer|] == Closer
  {
    if p + |Opener| <= |s| {
      var w := s[p..p + |Opener|];
      assert forall i :: 0 <= i < |Opener| ==> w[i] == s[p + i];
    }
    if p + |Closer| <= |s| {
      var w := s[p..p + |Closer|];
      assert forall i :: 0 <= i < |Closer| ==> w[i] == s[p + i];
    }
  }

  /** Position k can sit inside a payload: `.` matches it and no closer starts there. */
  predicate PayloadChar(s: string, k: nat)
    requires k < |s|
  {
    !IsLineTerminator(s[k]) && !ClosesAt(s, k)
  }

  /**
   * m is what /<!--STYLE:(.*?)-->/ matches when tried at position m.start:
   * the opener, then the shortest run of non-line-terminators that is
   * followed by the closer, then the closer.
   */
  ghost predicate IsMatch(s: string, m: Match) {
    && m.start + |Opener| + |Closer| <= m.end
    && OpensAt(s, m.start)
    && ClosesAt(s, m.end - |Closer|)
    && m.payload == s[m.start + |Opener|..m.end - |Closer|]
    && forall k :: m.start + |Opener| <= k < m.end - |Closer| ==> PayloadChar(s, k)
  }

  /** No match of the pattern starts in [lo, hi). */
  ghost predicate NoMatchIn(s: string, lo: nat, hi: int) {
    forall m :: IsMatch(s, m) && lo <= m.start ==> hi <= m.start
  }

  /** The lazy tail `(.*?)-->` tried from position j: the end of the first closer, unless a line terminator comes first. */
  function CloseFrom(s: string, j: nat): (e: Option<nat>)
    decreases |s| - j
    ensures e.Some? ==> j + |Closer| <= e.value <= |s| && ClosesAt(s, e.value - |Closer|)
    ensures e.Some? ==> forall k :: j <= k < e.value - |Closer| ==> PayloadChar(s, k)
  {
    if j >= |s| then None
    else if ClosesAt(s, j) then Some(j + |Closer|)
    else if IsLineTerminator(s[j]) then None
    else CloseFrom(s, j + 1)
  }

  /** CloseFrom finds every closer it is entitled to: the first one, when no line terminator precedes it. */
  lemma {:induction false} CloseFromFinds(s: string, j: nat, e: nat)
    requires j + |Closer| <= e && ClosesAt(s, e - |Closer|)
    requires forall k :: j <= k < e - |Closer| ==> PayloadChar(s, k)
    ensures CloseFrom(s, j) == Some(e)
    decreases e - j
  {
    if j < e - |Closer| {
      assert PayloadChar(s, j);
      CloseFromFinds(s, j + 1, e);
    }
  }

  /** The pattern tried at one position p (one step of the regular-expression engine). */
  function MatchAt(s: string, p: nat): (r: Option<Match>)
    ensures r.Some? ==> r.value.start == p && IsMatch(s, r.value)
  {
    if OpensAt(s, p) then
      match CloseFrom(s, p + |Opener|)
      case Some(e) => Some(Match(p, e, s[p + |Opener|..e - |Closer|]))
      case None => None
    else None
  }

  /** MatchAt misses no match: the match at a position is the one MatchAt reports. */
  lemma MatchAtComplete(s: string, m: Match)
    requires IsMatch(s, m)
    ensures MatchAt(s, m.start) == Some(m)
  {
    MatchCloses(s, m);
    MatchAtFound(s, m.start, m.end);
    assert m == Match(m.start, m.end, s[m.start + |Opener|..m.end - |Closer|]);
  }

  lemma MatchAtFound(s: string, p: nat, e: nat)
    requires OpensAt(s, p) && CloseFrom(s, p + |Opener|) == Some(e)
    ensures MatchAt(s, p) == Some(Match(p, e, s[p + |Opener|..e - |Closer|]))
  {
  }

  lemma MatchCloses(s: string, m: Match)
    requires IsMatch(s, m)
    ensures CloseFrom(s, m.start + |Opener|) == Some(m.end)
  {
    CloseFromFinds(s, m.start + |Opener|, m.end);
  }

  /** At most one match starts at any position. */
  lemma MatchUnique(s: string, m1: Match, m2: Match)
    requires IsMatch(s, m1) && IsMatch(s, m2) && m1.start == m2.start
    ensures m1 == m2
  {
    MatchAtComplete(s, m1);
    MatchAtComplete(s, m2);
  }

  /**
   * RegExp.prototype.exec for the global pattern, with lastIndex = from:
   * the leftmost match that starts at or after `from`.
   */
  function Exec(s: string, from: nat): (r: Option<Match>)
    decreases |s| - from
    ensures r.Some? ==> from <= r.value.start && r.value.start + |Opener| + |Closer| <= r.value.end <= |s|
    ensures r.Some? ==> IsMatch(s, r.value)
  {
    if from >= |s| then None
    else
      match MatchAt(s, from)
      case Some(m) => Some(m)
      case None => Exec(s, from + 1)
  }

  /** Exec returns the leftmost match: none starts between `from` and it, and when it finds nothing, none starts after `from`. */
  lemma {:induction false} ExecLeftmost(s: string, from: nat)
    ensures Exec(s, from).Some? ==> NoMatchIn(s, from, Exec(s, from).value.start)
    ensures Exec(s, from).None? ==> NoMatchIn(s, from, |s| + 1)
    decreases |s| - from
  {
    forall m | IsMatch(s, m) && m.start == from
      ensures MatchAt(s, from) == Some(m)
    {
      MatchAtComplete(s, m);
    }
    if from < |s| && MatchAt(s, from).None? {
      ExecLeftmost(s, from + 1);
    }
  }

  /** The spans the exec loop visits, starting with lastIndex = from. */
  function Spans(s: string, from: nat): (ms: seq<Match>)
    decreases |s| - from
  {
    match Exec(s, from)
    case None => []
    case Some(m) => [m] + Spans(s, m.end)
  }

  /** Every span is a match of the pattern that starts at or after `from`. */
  ghost predicate AllMatches(s: string, from: nat, ms: seq<Match>) {
    forall i :: 0 <= i < |ms| ==> from <= ms[i].start && IsMatch(s, ms[i])
  }

  /** The spans come in order and do not overlap. */
  ghost predicate Disjoint(ms: seq<Match>) {
    forall i, j :: 0 <= i < j < |ms| ==> ms[i].end <= ms[j].start
  }

  /** The pattern matches when tried at position p. */
  ghost predicate MatchesAt(s: string, p: nat) {
    exists m :: IsMatch(s, m) && m.start == p
  }

  /** Every position at or after `from` where the pattern matches lies inside one of the spans (it starts that span, or the span swallows it). */
  ghost predicate Covers(s: string, from: nat, ms: seq<Match>) {
    forall p :: from <= p && MatchesAt(s, p) ==> exists i :: 0 <= i < |ms| && ms[i].start <= p < ms[i].end
  }

  /** The declarative description of "the marker spans of s from position `from` on". */
  ghost predicate IsScanFrom(s: string, from: nat, ms: seq<Match>) {
    AllMatches(s, from, ms) && Disjoint(ms) && Covers(s, from, ms)
  }

  ghost predicate IsMarkerScan(s: string, ms: seq<Match>) {
    IsScanFrom(s, 0, ms)
  }

  lemma {:induction false} SpansAllMatch(s: string, from: nat)
    ensures AllMatches(s, from, Spans(s, from))
    decreases |s| - from
  {
    match Exec(s, from)
    case None =>
    case Some(m0) =>
      SpansAllMatch(s, m0.end);
      assert Spans(s, from) == [m0] + Spans(s, m0.end);
  }

  /** One turn of the exec loop: the spans from lastIndex are the match exec returns followed by the spans after it. */
  lemma SpansStep(s: string, from: nat)
    ensures Exec(s, from).None? ==> Spans(s, from) == []
    ensures Exec(s, from).Some? ==> Spans(s, from) == [Exec(s, from).value] + Spans(s, Exec(s, from).value.end)
  {
  }

  /** Every span the exec loop visits starts at or after `from`. */
  lemma {:induction false} SpansAfter(s: string, from: nat)
    ensures forall i :: 0 <= i < |Spans(s, from)| ==> from <= Spans(s, from)[i].start
    decreases |s| - from
  {
    match Exec(s, from)
    case None =>
    case Some(m0) =>
      SpansAfter(s, m0.end);
      assert Spans(s, from) == [m0] + Spans(s, m0.end);
  }

  lemma DisjointCons(m0: Match, rest: seq<Match>)
    requires Disjoint(rest)
    requires forall i :: 0 <= i < |rest| ==> m0.end <= rest[i].start
    ensures Disjoint([m0] + rest)
  {
    var ms := [m0] + rest;
    forall i, j | 0 <= i < j < |ms| ensures ms[i].end <= ms[j].start {
      assert ms[j] == rest[j - 1];
      if i > 0 {
        assert ms[i] == rest[i - 1];
      }
    }
  }

  lemma {:induction false} SpansDisjoint(s: string, from: nat)
    ensures Disjoint(Spans(s, from))
    decreases |s| - from
  {
    match Exec(s, from)
    case None =>
    case Some(m0) =>
      SpansDisjoint(s, m0.end);
      SpansAfter(s, m0.end);
      DisjointCons(m0, Spans(s, m0.end));
  }

  lemma {:induction false} SpansCover(s: string, from: nat)
    ensures Covers(s, from, Spans(s, from))
    decreases |s| - from
  {
    ExecLeftmost(s, from);
    match Exec(s, from)
    case None =>
    case Some(m0) =>
      SpansCover(s, m0.end);
      CoversCons(s, from, m0, Spans(s, m0.end));
  }

  /** A leftmost match followed by spans covering everything after it covers everything from `from`. */
  lemma CoversCons(s: string, from: nat, m0: Match, rest: seq<Match>)
    requires NoMatchIn(s, from, m0.start)
    requires Covers(s, m0.end, rest)
    ensures Covers(s, from, [m0] + rest)
  {
    var ms := [m0] + rest;
    forall p | from <= p && MatchesAt(s, p)
      ensures exists i :: 0 <= i < |ms| && ms[i].start <= p < ms[i].end
    {
      var m :| IsMatch(s, m) && m.start == p;
      if p < m0.end {
        assert ms[0].start <= p < ms[0].end;
      } else {
        var i :| 0 <= i < |rest| && rest[i].start <= p < rest[i].end;
        assert ms[i + 1] == rest[i];
      }
    }
  }

  /** A scan with nothing left for exec to find is empty. */
  lemma ScanEmpty(s: string, from: nat, ms: seq<Match>)
    requires AllMatches(s, from, ms) && Exec(s, from).None?
    ensures ms == []
  {
    FirstSpanMatches(s, from, ms);
    ExecLeftmost(s, from);
    if |ms| > 0 {
      assert false;
    }
  }

  lemma FirstSpanMatches(s: string, from: nat, ms: seq<Match>)
    requires AllMatches(s, from, ms)
    ensures |ms| > 0 ==> IsMatch(s, ms[0]) && from <= ms[0].start
  {
  }

  /** The first span of a scan is the leftmost match, the one exec returns. */
  lemma ScanHead(s: string, from: nat, ms: seq<Match>, m0: Match)
    requires IsScanFrom(s, from, ms) && Exec(s, from) == Some(m0)
    ensures |ms| > 0 && ms[0] == m0
  {
    ExecLeftmost(s, from);
    assert MatchesAt(s, m0.start);
    var i :| 0 <= i < |ms| && ms[i].start <= m0.start < ms[i].end;
    assert from <= ms[i].start && IsMatch(s, ms[i]);
    assert from <= ms[0].start && IsMatch(s, ms[0]);
    assert m0.start <= ms[0].start;
    assert i == 0;
    MatchUnique(s, ms[0], m0);
  }

  /** What follows the first span of a scan is a scan from that span's end. */
  lemma ScanTail(s: string, from: nat, ms: seq<Match>)
    requires IsScanFrom(s, from, ms) && |ms| > 0
    ensures IsScanFrom(s, ms[0].end, ms[1..])
  {
    var rest := ms[1..];
    assert Covers(s, ms[0].end, rest) by {
      forall p | ms[0].end <= p && MatchesAt(s, p)
        ensures exists k :: 0 <= k < |rest| && rest[k].start <= p < rest[k].end
      {
        var k :| 0 <= k < |ms| && ms[k].start <= p < ms[k].end;
        assert k != 0;
        assert rest[k - 1] == ms[k];
      }
    }
    assert AllMatches(s, ms[0].end, rest) by {
      forall k | 0 <= k < |rest| ensures ms[0].end <= rest[k].start && IsMatch(s, rest[k]) {
        assert rest[k] == ms[k + 1];
        assert ms[0].end <= ms[k + 1].start;
      }
    }
    assert Disjoint(rest) by {
      forall k, l | 0 <= k < l < |rest| ensures rest[k].end <= rest[l].start {
        assert rest[k] == ms[k + 1] && rest[l] == ms[l + 1];
      }
    }
  }

  lemma {:induction false} ScanIsSpans(s: string, from: nat, ms: seq<Match>)
    requires IsScanFrom(s, from, ms)
    ensures ms == Spans(s, from)
    decreases |ms|
  {
    match Exec(s, from)
    case None =>
      ScanEmpty(s, from, ms);
    case Some(m0) =>
      ScanHead(s, from, ms, m0);
      ScanTail(s, from, ms);
      ScanIsSpans(s, m0.end, ms[1..]);
      assert ms == [m0] + ms[1..];
  }

  /** The spans the exec loop visits are exactly the marker spans of s, and no other sequence is. */
  lemma SpansCharacterized(s: string, ms: seq<Match>)
    ensures IsMarkerScan(s, ms) <==> ms == Spans(s, 0)
  {
    SpansAllMatch(s, 0);
    SpansDisjoint(s, 0);
    SpansCover(s, 0);
    if IsMarkerScan(s, ms) {
      ScanIsSpans(s, 0, ms);
    }
  }

  /** The capture groups (match[1]) of the spans, in order. */
  function Payloads(ms: seq<Match>): (ps: seq<string>)
    ensures |ps| == |ms|
  {
    if ms == [] then [] else Payloads(ms[..|ms| - 1]) + [ms[|ms| - 1].payload]
  }

  /** Payload i is the capture group of span i. */
  lemma {:induction false} PayloadsAt(ms: seq<Match>)
    ensures forall i :: 0 <= i < |ms| ==> Payloads(ms)[i] == ms[i].payload
  {
    if ms != [] {
      var init := ms[..|ms| - 1];
      PayloadsAt(init);
      forall i | 0 <= i < |ms| ensures Payloads(ms)[i] == ms[i].payload {
        if i < |init| {
          assert Payloads(ms)[i] == Payloads(init)[i];
          assert init[i] == ms[i];
        }
      }
    }
  }

  /**
   * The results array after pushing JSON.parse of each payload in turn:
   * a payload that parses adds its value, one that throws adds nothing.
   */
  function Parsed<V>(parse: string -> Option<V>, ps: seq<string>): (vs: seq<V>)
    ensures |vs| <= |ps|
  {
    if ps == [] then []
    else
      Parsed(parse, ps[..|ps| - 1]) +
      match parse(ps[|ps| - 1])
      case Some(v) => [v]
      case None => []
  }

  /** A failed parse never stops the scan: the results of a concatenation are the concatenation of the results. */
  lemma {:induction false} ParsedAppend<V>(parse: string -> Option<V>, a: seq<string>, b: seq<string>)
    ensures Parsed(parse, a + b) == Parsed(parse, a) + Parsed(parse, b)
    decreases |b|
  {
    if b == [] {
      assert a + b == a;
    } else {
      var b' := b[..|b| - 1];
      var last := b[|b| - 1];
      var tail := match parse(last) case Some(v) => [v] case None => [];
      assert (a + b)[..|a + b| - 1] == a + b';
      assert (a + b)[|a + b| - 1] == last;
      ParsedAppend(parse, a, b');
      calc {
        Parsed(parse, a + b);
        Parsed(parse, a + b') + tail;
        (Parsed(parse, a) + Parsed(parse, b')) + tail;
        Parsed(parse, a) + (Parsed(parse, b') + tail);
        Parsed(parse, a) + Parsed(parse, b);
      }
    }
  }

  /**
   * `vs` are the values of the payloads of `ps` that parse, in order: `idx`
   * lists the positions of those payloads, increasing, and value k is the
   * parse of payload idx[k].
   */
  ghost predicate PicksParsed<V>(parse: string -> Option<V>, ps: seq<string>, vs: seq<V>, idx: seq<nat>) {
    && |idx| == |vs|
    && (forall k :: 0 <= k < |idx| ==> idx[k] < |ps| && parse(ps[idx[k]]) == Some(vs[k]))
    && (forall k, l :: 0 <= k < l < |idx| ==> idx[k] < idx[l])
    && (forall i :: 0 <= i < |ps| && parse(ps[i]).Some? ==> i in idx)
  }

  /**
   * The results are exactly the values of the payloads that parse, in their
   * order of appearance: `idx` lists the positions of those payloads,
   * increasing, and result k is the value parsed from payload idx[k].
   */
  lemma {:induction false} ParsedPicks<V>(parse: string -> Option<V>, ps: seq<string>) returns (idx: seq<nat>)
    ensures |idx| == |Parsed(parse, ps)|
    ensures forall k :: 0 <= k < |idx| ==> idx[k] < |ps| && parse(ps[idx[k]]) == Some(Parsed(parse, ps)[k])
    ensures forall k, l :: 0 <= k < l < |idx| ==> idx[k] < idx[l]
    ensures forall i :: 0 <= i < |ps| && parse(ps[i]).Some? ==> i in idx
  {
    if ps == [] {
      idx := [];
    } else {
      var init := ps[..|ps| - 1];
      var idx0 := ParsedPicks(parse, init);
      idx := PicksParsedPush(parse, ps, Parsed(parse, init), idx0);
    }
  }

  /** One more payload: its value joins the results, at its position, exactly when it parses. */
  lemma PicksParsedPush<V>(parse: string -> Option<V>, ps: seq<string>, vs0: seq<V>, idx0: seq<nat>) returns (idx: seq<nat>)
    requires |ps| > 0 && PicksParsed(parse, ps[..|ps| - 1], vs0, idx0)
    ensures PicksParsed(parse, ps, vs0 + match parse(ps[|ps| - 1]) case Some(v) => [v] case None => [], idx)
  {
    var n := |ps| - 1;
    var init := ps[..n];
    forall k | 0 <= k < |idx0| ensures ps[idx0[k]] == init[idx0[k]] {
    }
    forall i | 0 <= i < n && parse(ps[i]).Some? ensures i in idx0 {
      assert init[i] == ps[i];
    }
    match parse(ps[n])
    case Some(v) =>
      idx := idx0 + [n];
      var vs := vs0 + [v];
      forall i | 0 <= i < |ps| && parse(ps[i]).Some? ensures i in idx {
        if i < n {
          assert i in idx0;
        } else {
          assert idx[|idx0|] == i;
        }
      }
      forall k | 0 <= k < |idx| ensures idx[k] < |ps| && parse(ps[idx[k]]) == Some(vs[k]) {
        if k < |idx0| {
          assert idx[k] == idx0[k] && vs[k] == vs0[k];
        }
      }
    case None =>
      idx := idx0;
      assert vs0 + [] == vs0;
  }

  /** What one more span adds to the results: its parsed payload, or nothing. */
  lemma ParsedPush<V>(parse: string -> Option<V>, ms: seq<Match>, m: Match)
    ensures Parsed(parse, Payloads(ms + [m])) ==
      Parsed(parse, Payloads(ms)) + match parse(m.payload) case Some(v) => [v] case None => []
  {
    assert (ms + [m])[..|ms|] == ms;
    var ps := Payloads(ms + [m]);
    assert ps == Payloads(ms) + [m.payload];
    assert ps[..|ps| - 1] == Payloads(ms);
  }

  /**
   * String.prototype.replace with the same global pattern and "" as the
   * replacement, continuing from lastIndex = from: the text between matches
   * is kept, every matched span is dropped.
   */
  function ReplaceFrom(s: string, from: nat): string
    requires from <= |s|
    decreases |s| - from
  {
    match Exec(s, from)
    case None => s[from..]
    case Some(m) => s[from..m.start] + ReplaceFrom(s, m.end)
  }

  /** text.replace(/<!--STYLE:.*?-->/g, "") */
  function ReplaceAll(s: string): string {
    ReplaceFrom(s, 0)
  }

  /** parseStyleResults(text).cleanText */
  function CleanText(s: string): string {
    Trim(ReplaceAll(s))
  }

  /** parseStyleResults(text).results */
  function Results<V>(parse: string -> Option<V>, s: string): seq<V> {
    Parsed(parse, Payloads(Spans(s, 0)))
  }

  /** Position k lies inside one of the spans. */
  ghost predicate InSpan(ms: seq<Match>, k: nat) {
    exists i :: 0 <= i < |ms| && ms[i].start <= k < ms[i].end
  }

  /** Reference definition of removal: the characters of s[k..] that lie in no span, in order. */
  ghost function Kept(s: string, ms: seq<Match>, k: nat): string
    requires k <= |s|
    decreases |s| - k
  {
    if k == |s| then ""
    else (if InSpan(ms, k) then "" else [s[k]]) + Kept(s, ms, k + 1)
  }

  lemma {:induction false} KeptFree(s: string, ms: seq<Match>, a: nat, b: nat)
    requires a <= b <= |s|
    requires forall k :: a <= k < b ==> !InSpan(ms, k)
    ensures Kept(s, ms, a) == s[a..b] + Kept(s, ms, b)
    decreases b - a
  {
    if a < b {
      KeptFree(s, ms, a + 1, b);
      assert !InSpan(ms, a);
      calc {
        Kept(s, ms, a);
        [s[a]] + Kept(s, ms, a + 1);
        [s[a]] + (s[a + 1..b] + Kept(s, ms, b));
        ([s[a]] + s[a + 1..b]) + Kept(s, ms, b);
        { assert [s[a]] + s[a + 1..b] == s[a..b]; }
        s[a..b] + Kept(s, ms, b);
      }
    } else {
      assert s[a..b] == [];
    }
  }

  lemma {:induction false} KeptCovered(s: string, ms: seq<Match>, a: nat, b: nat)
    requires a <= b <= |s|
    requires forall k :: a <= k < b ==> InSpan(ms, k)
    ensures Kept(s, ms, a) == Kept(s, ms, b)
    decreases b - a
  {
    if a < b {
      KeptCovered(s, ms, a + 1, b);
    }
  }

  lemma {:induction false} KeptSame(s: string, ms1: seq<Match>, ms2: seq<Match>, a: nat)
    requires a <= |s|
    requires forall k :: a <= k < |s| ==> (InSpan(ms1, k) <==> InSpan(ms2, k))
    ensures Kept(s, ms1, a) == Kept(s, ms2, a)
    decreases |s| - a
  {
    if a < |s| {
      KeptSame(s, ms1, ms2, a + 1);
      var here := if InSpan(ms1, a) then "" else [s[a]];
      assert here == if InSpan(ms2, a) then "" else [s[a]];
      assert Kept(s, ms1, a) == here + Kept(s, ms1, a + 1);
      assert Kept(s, ms2, a) == here + Kept(s, ms2, a + 1);
    }
  }

  /** Removing a first span followed by later ones: the text before it survives, the span itself does not. */
  lemma KeptCons(s: string, m0: Match, rest: seq<Match>, from: nat)
    requires from <= m0.start <= m0.end <= |s|
    requires forall i :: 0 <= i < |rest| ==> m0.end <= rest[i].start
    ensures Kept(s, [m0] + rest, from) == s[from..m0.start] + Kept(s, rest, m0.end)
  {
    var ms := [m0] + rest;
    forall k | from <= k < m0.start ensures !InSpan(ms, k) {
      forall i | 0 <= i < |ms| ensures !(ms[i].start <= k < ms[i].end) {
        if i > 0 {
          assert ms[i] == rest[i - 1];
        }
      }
    }
    KeptFree(s, ms, from, m0.start);
    forall k | m0.start <= k < m0.end ensures InSpan(ms, k) {
      assert ms[0].start <= k < ms[0].end;
    }
    KeptCovered(s, ms, m0.start, m0.end);
    forall k | m0.end <= k < |s| ensures InSpan(ms, k) <==> InSpan(rest, k) {
      if InSpan(ms, k) {
        var i :| 0 <= i < |ms| && ms[i].start <= k < ms[i].end;
        assert i > 0 && ms[i] == rest[i - 1];
      }
      if InSpan(rest, k) {
        var i :| 0 <= i < |rest| && rest[i].start <= k < rest[i].end;
        assert ms[i + 1] == rest[i];
      }
    }
    KeptSame(s, ms, rest, m0.end);
  }

  /** replace removes exactly the spans the exec loop visits, and keeps every other character in order. */
  lemma {:induction false} ReplaceKeepsUncovered(s: string, from: nat)
    requires from <= |s|
    ensures ReplaceFrom(s, from) == Kept(s, Spans(s, from), from)
    decreases |s| - from
  {
    match Exec(s, from)
    case None =>
      KeptFree(s, [], from, |s|);
    case Some(m0) =>
      SpansAfter(s, m0.end);
      KeptCons(s, m0, Spans(s, m0.end), from);
      ReplaceKeepsUncovered(s, m0.end);
  }

  /**
   * parseStyleResults against the declarative description: for the marker
   * spans of s, cleanText is the text outside them, trimmed (whether or not
   * their payloads parse), and results are the parsed payloads in order.
   */
  lemma ParseStyleResultsMeaning<V>(parse: string -> Option<V>, s: string, ms: seq<Match>)
    requires IsMarkerScan(s, ms)
    ensures CleanText(s) == Trim(Kept(s, ms, 0))
    ensures Results(parse, s) == Parsed(parse, Payloads(ms))
    ensures |Results(parse, s)| <= |ms|
  {
    SpansCharacterized(s, ms);
    ReplaceKeepsUncovered(s, 0);
  }

  /** Every marker span starts with the opener's '<'. */
  lemma OpenerNeeded(s: string, p: nat)
    ensures MatchesAt(s, p) ==> p < |s| && s[p] == '<'
  {
    if MatchesAt(s, p) {
      var m :| IsMatch(s, m) && m.start == p;
    }
  }

  /** Text without a '<' holds no marker span. */
  lemma NoOpenerNoMarkers(s: string)
    requires forall k :: 0 <= k < |s| ==> s[k] != '<'
    ensures forall p :: !MatchesAt(s, p)
  {
    forall p: nat ensures !MatchesAt(s, p) {
      OpenerNeeded(s, p);
    }
  }

  /** Text without any marker keeps all its characters (trimmed) and yields no results. */
  lemma NoMarkers<V>(parse: string -> Option<V>, s: string)
    requires forall p :: !MatchesAt(s, p)
    ensures CleanText(s) == Trim(s)
    ensures Results(parse, s) == []
  {
    if Exec(s, 0).Some? {
      assert MatchesAt(s, Exec(s, 0).value.start);
    }
    assert s[0..] == s;
  }

  /** The one marker of a text built as a + marker(p) + b, where '<' occurs only in the opener. */
  lemma SingleMarkerMatches(a: string, p: string, b: string)
    requires forall k :: 0 <= k < |p| ==> p[k] != '<' && p[k] != '>' && !IsLineTerminator(p[k])
    ensures var s := a + Opener + p + Closer + b;
      IsMatch(s, Match(|a|, |a| + |Opener| + |p| + |Closer|, p))
  {
    SingleMarkerOpens(a, p, b);
    SingleMarkerCloses(a, p, b);
    SingleMarkerPayload(a, p, b);
  }

  lemma SingleMarkerOpens(a: string, p: string, b: string)
    ensures OpensAt(a + Opener + p + Closer + b, |a|)
  {
    var s := a + Opener + p + Closer + b;
    assert forall i :: 0 <= i < |Opener| ==> s[|a| + i] == Opener[i];
  }

  lemma SingleMarkerCloses(a: string, p: string, b: string)
    ensures var s := a + Opener + p + Closer + b;
      var e := |a| + |Opener| + |p|;
      ClosesAt(s, e) && s[|a| + |Opener|..e] == p
  {
    var s := a + Opener + p + Closer + b;
    var off := |a| + |Opener|;
    var e := off + |p|;
    assert forall i :: 0 <= i < |p| ==> s[off + i] == p[i];
    assert forall i :: 0 <= i < |Closer| ==> s[e + i] == Closer[i];
  }

  lemma SingleMarkerPayload(a: string, p: string, b: string)
    requires forall k :: 0 <= k < |p| ==> p[k] != '>' && !IsLineTerminator(p[k])
    ensures var s := a + Opener + p + Closer + b;
      forall k :: |a| + |Opener| <= k < |a| + |Opener| + |p| ==> PayloadChar(s, k)
  {
    var s := a + Opener + p + Closer + b;
    var off := |a| + |Opener|;
    var e := off + |p|;
    forall k | off <= k < e ensures PayloadChar(s, k) {
      assert s[k] == p[k - off];
      if k + 2 < e {
        assert s[k + 2] == p[k + 2 - off];
      } else {
        assert s[k + 2] == Closer[k + 2 - e];
      }
    }
  }

  /** In a + marker(p) + b with no other '<', the marker is the whole scan. */
  lemma SingleMarkerScan(a: string, p: string, b: string)
    requires forall k :: 0 <= k < |a| ==> a[k] != '<'
    requires forall k :: 0 <= k < |b| ==> b[k] != '<'
    requires forall k :: 0 <= k < |p| ==> p[k] != '<' && p[k] != '>' && !IsLineTerminator(p[k])
    ensures var s := a + Opener + p + Closer + b;
      IsMarkerScan(s, [Match(|a|, |a| + |Opener| + |p| + |Closer|, p)])
  {
    var s := a + Opener + p + Closer + b;
    var m := Match(|a|, |a| + |Opener| + |p| + |Closer|, p);
    SingleMarkerMatches(a, p, b);
    assert forall k :: 0 <= k < |a| ==> s[k] == a[k];
    assert forall k :: m.end <= k < |s| ==> s[k] == b[k - m.end];
    forall q: nat | MatchesAt(s, q) ensures [m][0].start <= q < [m][0].end {
      OpenerNeeded(s, q);
    }
  }

  /**
   * A text holding one marker and no other '<': cleaning removes exactly the
   * marker and trims, and the results are the payload's parse, if it parses.
   */
  lemma SingleMarker<V>(parse: string -> Option<V>, a: string, p: string, b: string)
    requires forall k :: 0 <= k < |a| ==> a[k] != '<'
    requires forall k :: 0 <= k < |b| ==> b[k] != '<'
    requires forall k :: 0 <= k < |p| ==> p[k] != '<' && p[k] != '>' && !IsLineTerminator(p[k])
    ensures CleanText(a + Opener + p + Closer + b) == Trim(a + b)
    ensures Results(parse, a + Opener + p + Closer + b) == (match parse(p) case Some(v) => [v] case None => [])
  {
    var s := a + Opener + p + Closer + b;
    var m := Match(|a|, |a| + |Opener| + |p| + |Closer|, p);
    SingleMarkerScan(a, p, b);
    SingleMarkerClean(s, m, a, b);
    SingleMarkerResults(parse, s, m);
  }

  /**
   * The reply "Thanks! <marker> Let's continue." cleans to the text around
   * the marker, both spaces kept, and yields the payload's parse.
   * The two literals come in as parameters pinned by `requires`, so that the
   * proof does not unfold them into characters where it has no need to.
   */
  lemma ThanksScenario<V>(parse: string -> Option<V>, before: string, p: string, after: string)
    requires before == "Thanks! " && after == " Let's continue."
    requires forall k :: 0 <= k < |p| ==> p[k] != '<' && p[k] != '>' && !IsLineTerminator(p[k])
    ensures CleanText(before + Opener + p + Closer + after) == before + after
    ensures Results(parse, before + Opener + p + Closer + after) == (match parse(p) case Some(v) => [v] case None => [])
  {
    ThanksNoOpener(before, after);
    SingleMarker(parse, before, p, after);
    ThanksTrim(before, after);
  }

  /** The two texts around the marker hold no '<' (literals passed as in ThanksScenario). */
  lemma ThanksNoOpener(before: string, after: string)
    requires before == "Thanks! " && after == " Let's continue."
    ensures forall k :: 0 <= k < |before| ==> before[k] != '<'
    ensures forall k :: 0 <= k < |after| ==> after[k] != '<'
  {
  }

  /** The joined text starts and ends with visible characters, so trimming keeps it (literals passed as in ThanksScenario). */
  lemma ThanksTrim(before: string, after: string)
    requires before == "Thanks! " && after == " Let's continue."
    ensures Trim(before + after) == before + after
  {
    assert (before + after)[0] == 'T' && (before + after)[|before + after| - 1] == '.';
    TrimKeeps(before + after);
  }

  lemma SingleMarkerClean(s: string, m: Match, a: string, b: string)
    requires IsMarkerScan(s, [m])
    requires |a| == m.start <= m.end <= |s| && s[..m.start] == a && s[m.end..] == b
    ensures CleanText(s) == Trim(a + b)
  {
    SpansCharacterized(s, [m]);
    ReplaceKeepsUncovered(s, 0);
    SingleMarkerKept(s, m, a, b);
  }

  lemma SingleMarkerResults<V>(parse: string -> Option<V>, s: string, m: Match)
    requires IsMarkerScan(s, [m])
    ensures Results(parse, s) == (match parse(m.payload) case Some(v) => [v] case None => [])
  {
    SpansCharacterized(s, [m]);
    assert Payloads([m]) == [m.payload];
    assert [m.payload][..0] == [];
  }

  lemma SingleMarkerKept(s: string, m: Match, a: string, b: string)
    requires m.start <= m.end <= |s|
    requires s[..m.start] == a && s[m.end..] == b
    ensures Kept(s, [m], 0) == a + b
  {
    KeptCons(s, m, [], 0);
    KeptFree(s, [], m.end, |s|);
    assert [m] + [] == [m];
    assert s[0..m.start] == a;
  }

  /**
   * The loop of parseStyleResults: regex.exec moves lastIndex past each
   * match, each payload goes through JSON.parse, the values that parse are
   * pushed; then cleanText is built by replace and trim.
   */
  method ParseStyleResults<V>(text: string, parse: string -> Option<V>) returns (cleanText: string, results: seq<V>)
    ensures results == Results(parse, text)
    ensures cleanText == CleanText(text)
  {
    results := [];
    var lastIndex: nat := 0;
    ghost var visited: seq<Match> := [];
    var found := Exec(text, lastIndex);
    while found.Some?
      invariant lastIndex <= |text|
      invariant found == Exec(text, lastIndex)
      invariant Spans(text, 0) == visited + Spans(text, lastIndex)
      invariant results == Parsed(parse, Payloads(visited))
      decreases |text| - lastIndex
    {
      var m := found.value;
      SpansStep(text, lastIndex);
      assert Spans(text, 0) == (visited + [m]) + Spans(text, m.end);
      ParsedPush(parse, visited, m);
      visited := visited + [m];
      match parse(m.payload) {
        case Some(v) => results := results + [v];
        case None =>
      }
      assert results == Parsed(parse, Payloads(visited));
      lastIndex := m.end;
      found := Exec(text, lastIndex);
    }
    SpansStep(text, lastIndex);
    assert Spans(text, 0) == visited;
    cleanText := Trim(ReplaceAll(text));
  }
}
