/** When holding back the matches of a text and putting them back gives the text: exactly
    if no sentinel of the author's own stands before the last match and no match has a
    backslash that `String#sub` reads as an escape. */
module QuirksRoundTrip {
  import opened Wrappers
  import opened Quirks

  // ---- Lengths: every escape makes the text shorter ----

  /** None of the two escapes that stand for the text around the match. */
  ghost predicate NoContext(s: string) {
    forall i | 0 <= i < |s| - 1 && s[i] == '\\' :: s[i + 1] != '`' && s[i + 1] != '\''
  }

  lemma {:induction false} ExpandShrinks(s: string, before: string, matched: string, after: string)
    requires NoContext(s) && |matched| == 1
    ensures |Expand(s, before, matched, after)| <= |s|
    ensures |Expand(s, before, matched, after)| == |s| ==> NoEscape(s)
    decreases |s|
  {
    if |s| > 1 && s[0] == '\\' {
      assert s[0 + 1] != '`' && s[0 + 1] != '\'';
      ExpandShrinks(s[2..], before, matched, after);
      if !IsEscape(s[1]) && NoEscape(s[2..]) {
        EscapeFreeFrom(s, 2);
      }
    } else if s != "" {
      ExpandShrinks(s[1..], before, matched, after);
      if NoEscape(s[1..]) {
        EscapeFreeFrom(s, 1);
      }
    }
  }

  lemma EscapeFreeFrom(s: string, k: nat)
    requires k <= |s| && NoEscape(s[k..])
    requires forall i | 0 <= i < k && i < |s| - 1 && s[i] == '\\' :: !IsEscape(s[i + 1])
    ensures NoEscape(s)
  {
    forall i | 0 <= i < |s| - 1 && s[i] == '\\' ensures !IsEscape(s[i + 1]) {
      if i >= k {
        assert s[k..][i - k] == s[i] && s[k..][i - k + 1] == s[i + 1];
      }
    }
  }

  function Sentinels(text: string): nat {
    multiset(text)[SENTINEL]
  }

  lemma SentinelsOf(a: string, b: string)
    ensures Sentinels(a + b) == Sentinels(a) + Sentinels(b)
    ensures SENTINEL in a <==> Sentinels(a) > 0
  {
  }

  /** Where the next substitution hits. */
  lemma FirstSentinel(text: string) returns (before: string, after: string)
    requires SENTINEL in text
    ensures text == before + [SENTINEL] + after && SENTINEL !in before
    ensures forall span :: Sub(text, [SENTINEL], span) == before + Expand(span, before, [SENTINEL], after) + after
  {
    var p :| 0 <= p < |text| && text[p] == SENTINEL && SENTINEL !in text[..p] by {
      FirstExists(text);
    }
    before, after := text[..p], text[p + 1..];
    assert text == before + [SENTINEL] + after;
    forall q | 0 <= q < |before| ensures !OccursAt(text, [SENTINEL], q) {
      assert text[q..q + 1] == [before[q]] && before[q] in before;
    }
    forall span ensures Sub(text, [SENTINEL], span) == before + Expand(span, before, [SENTINEL], after) + after {
      SubAt(text, before, [SENTINEL], after, span);
    }
  }

  lemma {:induction false} FirstExists(text: string)
    requires SENTINEL in text
    ensures exists p :: 0 <= p < |text| && text[p] == SENTINEL && SENTINEL !in text[..p]
    decreases |text|
  {
    if text[0] == SENTINEL {
      assert SENTINEL !in text[..0];
    } else {
      FirstExists(text[1..]);
      var p :| 0 <= p < |text[1..]| && text[1..][p] == SENTINEL && SENTINEL !in text[1..][..p];
      assert text[..p + 1] == [text[0]] + text[1..][..p];
    }
  }

  function Total(list: seq<string>): nat {
    if list == [] then 0 else |list[0]| + Total(list[1..])
  }

  /** With a sentinel for every span the result is as long as it can be only if no span
      has an escape. */
  lemma {:induction false} ReturnLength(held: string, spans: seq<string>)
    requires Sentinels(held) >= |spans| && forall k | 0 <= k < |spans| :: NoContext(spans[k])
    ensures |Return(held, spans)| <= |held| - |spans| + Total(spans)
    ensures |Return(held, spans)| == |held| - |spans| + Total(spans) ==> Plain(spans)
    decreases |spans|
  {
    if spans != [] {
      SentinelsOf(held, "");
      var before, after := FirstSentinel(held);
      var filled := Expand(spans[0], before, [SENTINEL], after);
      SentinelsOf(before + [SENTINEL], after);
      SentinelsOf(before, [SENTINEL]);
      SentinelsOf(before + filled, after);
      SentinelsOf(before, filled);
      ExpandShrinks(spans[0], before, [SENTINEL], after);
      ReturnLength(before + filled + after, spans[1..]);
      PlainCons(spans);
    }
  }

  lemma PlainCons(spans: seq<string>)
    requires spans != []
    ensures NoEscape(spans[0]) && Plain(spans[1..]) ==> Plain(spans)
  {
    if NoEscape(spans[0]) && Plain(spans[1..]) {
      forall k | 0 <= k < |spans| ensures NoEscape(spans[k]) {
        if k > 0 {
          assert spans[1..][k - 1] == spans[k];
        }
      }
    }
  }

  lemma {:induction false} Lengths(gaps: seq<string>, spans: seq<string>)
    requires |gaps| == |spans| + 1
    ensures |Weave(gaps, spans)| == Total(gaps) + Total(spans)
    ensures |Join(gaps)| == Total(gaps) + |spans|
    ensures Sentinels(Join(gaps)) >= |spans|
    decreases |spans|
  {
    if spans != [] {
      Lengths(gaps[1..], spans[1..]);
      SentinelsOf(gaps[0] + [SENTINEL], Join(gaps[1..]));
      SentinelsOf(gaps[0], [SENTINEL]);
    }
  }

  // ---- A sentinel in a gap is taken for a held span ----

  /** A substitution leaves what precedes the first sentinel alone. */
  lemma SubBeyond(prefix: string, rest: string, span: string) returns (rest': string)
    requires SENTINEL !in prefix
    ensures Sub(prefix + rest, [SENTINEL], span) == prefix + rest'
  {
    if SENTINEL in rest {
      var before, after := FirstSentinel(rest);
      var text, upTo := prefix + rest, prefix + before;
      assert text == upTo + [SENTINEL] + after;
      forall q | 0 <= q < |upTo| ensures !OccursAt(text, [SENTINEL], q) {
        assert text[q..q + 1] == [upTo[q]];
      }
      SubAt(text, upTo, [SENTINEL], after, span);
      rest' := before + Expand(span, upTo, [SENTINEL], after) + after;
      Regroup(prefix, before, Expand(span, upTo, [SENTINEL], after), after);
    } else {
      NothingToReturn(prefix + rest, span);
      rest' := rest;
    }
  }

  lemma {:induction false} PrefixStays(prefix: string, rest: string, spans: seq<string>)
    requires SENTINEL !in prefix
    ensures |Return(prefix + rest, spans)| >= |prefix| && Return(prefix + rest, spans)[..|prefix|] == prefix
    decreases |spans|
  {
    if spans != [] {
      var rest' := SubBeyond(prefix, rest, spans[0]);
      PrefixStays(prefix, rest', spans[1..]);
    }
  }

  /** The span put at the author's sentinel differs from it in its first character. */
  lemma SentinelIsOverwritten(h: string, gaps: seq<string>, spans: seq<string>)
    requires |gaps| == |spans| + 1 && spans != [] && SENTINEL !in h && SENTINEL in gaps[0]
    requires SENTINEL !in spans[0] && spans[0] != "" && NoEscape(spans[0])
    ensures Return(h + Join(gaps), spans) != h + Weave(gaps, spans)
  {
    var before, after := FirstSentinel(gaps[0]);
    var tail := after + [SENTINEL] + Join(gaps[1..]);
    var held, span := h + Join(gaps), spans[0];
    assert held == (h + before) + [SENTINEL] + tail;
    forall q | 0 <= q < |h + before| ensures !OccursAt(held, [SENTINEL], q) {
      assert held[q..q + 1] == [(h + before)[q]];
    }
    SubAt(held, h + before, [SENTINEL], tail, span);
    PrefixStays(h + before + span, tail, spans[1..]);
    var back := Return(held, spans);
    var p := |h + before|;
    assert back[p] == back[..|h + before + span|][p] == span[0] && span[0] in span;
    assert (h + Weave(gaps, spans))[p] == gaps[0][|before|] == SENTINEL;
  }

  lemma {:induction false} BadGapShows(h: string, gaps: seq<string>, spans: seq<string>, bad: nat)
    requires |gaps| == |spans| + 1 && SENTINEL !in h && Free(spans) && Plain(spans)
    requires forall k | 0 <= k < |spans| :: spans[k] != ""
    requires bad < |spans| && SENTINEL in gaps[bad]
    ensures Return(h + Join(gaps), spans) != h + Weave(gaps, spans)
    decreases |spans|
  {
    if SENTINEL in gaps[0] {
      SentinelIsOverwritten(h, gaps, spans);
    } else {
      ReturnOne(h, gaps, spans[0]);
      BadGapShows(h + gaps[0] + spans[0], gaps[1..], spans[1..], bad - 1);
      Regroup(h, gaps[0], spans[0], Weave(gaps[1..], spans[1..]));
    }
  }

  /** A sentinel after the last span stays where it is. */
  lemma {:induction false} ReturnWeaves(h: string, gaps: seq<string>, spans: seq<string>)
    requires |gaps| == |spans| + 1 && SENTINEL !in h && Free(spans) && Plain(spans)
    requires forall k | 0 <= k < |spans| :: SENTINEL !in gaps[k]
    ensures Return(h + Join(gaps), spans) == h + Weave(gaps, spans)
    decreases |spans|
  {
    if spans != [] {
      ReturnOne(h, gaps, spans[0]);
      ReturnWeaves(h + gaps[0] + spans[0], gaps[1..], spans[1..]);
      Regroup(h, gaps[0], spans[0], Weave(gaps[1..], spans[1..]));
    }
  }

  lemma {:induction false} SpansAreNonempty(gaps: seq<string>, spans: seq<string>, lang: string -> bool)
    requires |gaps| == |spans| + 1 && LeftmostMatches(gaps, spans, lang)
    ensures forall k | 0 <= k < |spans| :: spans[k] != ""
    decreases |spans|
  {
    if spans != [] {
      SpansAreNonempty(gaps[1..], spans[1..], lang);
      forall k | 0 < k < |spans| ensures spans[k] != "" {
        assert spans[k] == spans[1..][k - 1];
      }
    }
  }

  // ---- Main results ----

  lemma PiecesComeBackIff(gaps: seq<string>, spans: seq<string>)
    requires |gaps| == |spans| + 1 && Free(spans)
    requires forall k | 0 <= k < |spans| :: spans[k] != "" && NoContext(spans[k])
    ensures Return(Join(gaps), spans) == Weave(gaps, spans) <==>
      Plain(spans) && forall k | 0 <= k < |spans| :: SENTINEL !in gaps[k]
  {
    var held := Join(gaps);
    Lengths(gaps, spans);
    ReturnLength(held, spans);
    if Plain(spans) {
      assert "" + held == held && "" + Weave(gaps, spans) == Weave(gaps, spans);
      if bad :| 0 <= bad < |spans| && SENTINEL in gaps[bad] {
        BadGapShows("", gaps, spans, bad);
      } else {
        ReturnWeaves("", gaps, spans);
      }
    }
  }

  /** Main result: hold, then return, gives the text if and only if there is no sentinel
      before the last span and no span has an escape. */
  lemma RoundTripIff(text: string, len: Matcher, lang: string -> bool)
    requires Matches(len, lang) && Free(Scan(text, len).spans)
    requires forall k | 0 <= k < |Scan(text, len).spans| :: NoContext(Scan(text, len).spans[k])
    ensures var r := Scan(text, len);
      Return(Hold(text, r.spans), r.spans) == text <==>
      Plain(r.spans) && forall k | 0 <= k < |r.spans| :: SENTINEL !in r.gaps[k]
  {
    var r := Scan(text, len);
    ScanIsLeftmost(text, len, lang);
    SpansAreNonempty(r.gaps, r.spans, lang);
    HoldLeavesTheGaps(text, len, lang);
    PiecesComeBackIff(r.gaps, r.spans);
  }

  /** What the escape with this character stands for. */
  ghost predicate StandsFor(c: char, value: string, before: string, matched: string, after: string) {
    && (c == '\\' ==> value == "\\")
    && (c == '&' || c == '0' ==> value == matched)
    && (c == '`' ==> value == before)
    && (c == '\'' ==> value == after)
    && ('1' <= c <= '9' ==> value == "")
  }

  lemma Associates(a: string, b: string, c: string)
    ensures a + b + c == a + (b + c)
  {
  }

  lemma EscapeFirst(c: char, b: string, value: string, before: string, matched: string, after: string)
    requires IsEscape(c) && StandsFor(c, value, before, matched, after)
    ensures Expand(['\\', c] + b, before, matched, after) == value + Expand(b, before, matched, after)
  {
    var s := ['\\', c] + b;
    assert s[0] == '\\' && s[1] == c && s[2..] == b;
  }

  /** Text without escapes is passed over. */
  lemma {:induction false} ExpandBehind(a: string, x: string, before: string, matched: string, after: string)
    requires NoEscape(a) && (a != "" ==> a[|a| - 1] != '\\')
    ensures Expand(a + x, before, matched, after) == a + Expand(x, before, matched, after)
    decreases |a|
  {
    var rest := Expand(x, before, matched, after);
    if a == "" {
      assert a + x == x && a + rest == rest;
    } else if a[0] == '\\' {
      assert !IsEscape(a[0 + 1]);
      assert (a + x)[2..] == a[2..] + x;
      ExpandBehind(a[2..], x, before, matched, after);
      assert [a[0], a[1]] + (a[2..] + rest) == a + rest;
    } else {
      assert (a + x)[1..] == a[1..] + x;
      ExpandBehind(a[1..], x, before, matched, after);
      assert [a[0]] + (a[1..] + rest) == a + rest;
    }
  }

  /** The first escape of a replacement string becomes what it stands for, wherever it is,
      and the string is read on behind it. */
  lemma EscapeIsExpanded(a: string, c: char, b: string, value: string, before: string, matched: string, after: string)
    requires NoEscape(a) && (a != "" ==> a[|a| - 1] != '\\')
    requires IsEscape(c) && StandsFor(c, value, before, matched, after)
    ensures Expand(a + ['\\', c] + b, before, matched, after) == a + value + Expand(b, before, matched, after)
  {
    EscapeFirst(c, b, value, before, matched, after);
    ExpandBehind(a, ['\\', c] + b, before, matched, after);
    Associates(a, ['\\', c], b);
    Associates(a, value, Expand(b, before, matched, after));
  }

  /** A doubled backslash in a span always comes back single. */
  lemma DoubledBackslashComesBackSingle(a: string, b: string, before: string, matched: string, after: string)
    requires NoEscape(a) && (a != "" ==> a[|a| - 1] != '\\')
    ensures Expand(a + "\\\\" + b, before, matched, after) == a + "\\" + Expand(b, before, matched, after)
  {
    EscapeIsExpanded(a, '\\', b, "\\", before, matched, after);
    assert ['\\', '\\'] == "\\\\";
  }

  /** A sentinel of the author's own takes the place of the span. */
  lemma SentinelBreaksIt()
    ensures Hold([SENTINEL] + ":a:", [":a:"]) == [SENTINEL, SENTINEL]
    ensures Return([SENTINEL, SENTINEL], [":a:"]) == ":a:" + [SENTINEL]
  {
    var span: string := ":a:";
    assert ([SENTINEL] + span)[0..3][0] == SENTINEL && span[0] == ':';
    SubAt([SENTINEL] + span, [SENTINEL], span, "", [SENTINEL]);
    assert [SENTINEL] + span == [SENTINEL] + span + "";
    var none: seq<string> := [];
    assert [span][1..] == none;
    SubAt([SENTINEL, SENTINEL], "", [SENTINEL], [SENTINEL], span);
  }

  /** A backslash pair in a span comes back single. */
  lemma BackslashesBreakIt()
    ensures Hold("@\\\\", ["@\\\\"]) == [SENTINEL]
    ensures Return([SENTINEL], ["@\\\\"]) == "@\\"
  {
    var span: string := "@\\\\";
    SubAt(span, "", span, "", [SENTINEL]);
    var none: seq<string> := [];
    assert [span][1..] == none;
    assert OccursAt([SENTINEL], [SENTINEL], 0);
    assert span[1..] == "\\\\" && span[1..][2..] == "";
    assert Expand(span[1..], "", [SENTINEL], "") == "\\" + Expand("", "", [SENTINEL], "");
  }
}
