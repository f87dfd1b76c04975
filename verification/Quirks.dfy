/** `quirkify_text`: shortcodes, mentions, links and bracketed text are held back behind a
    sentinel while a regular expression rewrites the rest, and are put back afterwards.

    The regular expression of what is held back is a language with a matcher: for the
    text from some position on, the matcher gives the length of the match that starts
    there, 0 if there is none. */
module Quirks {
  import opened Wrappers

  const SENTINEL: char := '\U{06DD}'

  // ---- String#sub with a plain string as pattern ----

  predicate OccursAt(text: string, term: string, p: nat) {
    p + |term| <= |text| && text[p..p + |term|] == term
  }

  function FirstIndex(text: string, term: string): (r: Option<nat>)
    ensures r.Some? ==> OccursAt(text, term, r.value)
    ensures r.Some? ==> forall p | 0 <= p < r.value :: !OccursAt(text, term, p)
    ensures r.None? ==> forall p | 0 <= p <= |text| :: !OccursAt(text, term, p)
  {
    IndexFrom(text, term, 0)
  }

  function IndexFrom(text: string, term: string, start: nat): (r: Option<nat>)
    requires start <= |text| + 1
    ensures r.Some? ==> r.value >= start && OccursAt(text, term, r.value)
    ensures r.Some? ==> forall p | start <= p < r.value :: !OccursAt(text, term, p)
    ensures r.None? ==> forall p | start <= p <= |text| :: !OccursAt(text, term, p)
    decreases |text| + 1 - start
  {
    if start > |text| then None
    else if OccursAt(text, term, start) then Some(start)
    else IndexFrom(text, term, start + 1)
  }

  /** The escapes of a replacement string, for a pattern without groups. */
  function Expand(replacement: string, before: string, matched: string, after: string): string {
    if replacement == "" then ""
    else if replacement[0] != '\\' || |replacement| == 1 then
      [replacement[0]] + Expand(replacement[1..], before, matched, after)
    else
      (match replacement[1]
       case '\\' => "\\"
       case '&' => matched
       case '`' => before
       case '\'' => after
       case c => if c == '0' then matched else if '1' <= c <= '9' then "" else ['\\', c])
      + Expand(replacement[2..], before, matched, after)
  }

  function Sub(text: string, term: string, replacement: string): string {
    match FirstIndex(text, term)
    case None => text
    case Some(p) =>
      var before, after := text[..p], text[p + |term|..];
      before + Expand(replacement, before, term, after) + after
  }

  /** What a backslash before it makes an escape. */
  predicate IsEscape(c: char) {
    c == '\\' || c == '&' || c == '`' || c == '\'' || '0' <= c <= '9'
  }

  ghost predicate NoEscape(s: string) {
    forall i | 0 <= i < |s| - 1 && s[i] == '\\' :: !IsEscape(s[i + 1])
  }

  /** A replacement string without escapes stands for itself, single backslashes included. */
  lemma {:induction false} ExpandPlain(replacement: string, before: string, matched: string, after: string)
    requires NoEscape(replacement)
    ensures Expand(replacement, before, matched, after) == replacement
    decreases |replacement|
  {
    if |replacement| > 1 && replacement[0] == '\\' {
      assert !IsEscape(replacement[0 + 1]);
      ExpandPlain(replacement[2..], before, matched, after);
      assert [replacement[0], replacement[1]] + replacement[2..] == replacement;
    } else if replacement != "" {
      ExpandPlain(replacement[1..], before, matched, after);
    }
  }

  lemma SubAt(text: string, before: string, term: string, after: string, replacement: string)
    requires text == before + term + after
    requires forall p | 0 <= p < |before| :: !OccursAt(text, term, p)
    ensures Sub(text, term, replacement) == before + Expand(replacement, before, term, after) + after
    ensures NoEscape(replacement) ==> Sub(text, term, replacement) == before + replacement + after
  {
    assert OccursAt(text, term, |before|);
    assert text[..|before|] == before && text[|before| + |term|..] == after;
    if NoEscape(replacement) {
      ExpandPlain(replacement, before, term, after);
    }
  }

  lemma SubMissing(text: string, term: string, replacement: string)
    requires forall p | 0 <= p <= |text| :: !OccursAt(text, term, p)
    ensures Sub(text, term, replacement) == text
  {
  }

  // ---- safe_hold and safe_return ----

  function Hold(text: string, list: seq<string>): string
    decreases |list|
  {
    if list == [] then text else Hold(Sub(text, list[0], [SENTINEL]), list[1..])
  }

  function Return(text: string, list: seq<string>): string
    decreases |list|
  {
    if list == [] then text else Return(Sub(text, [SENTINEL], list[0]), list[1..])
  }

  method SafeHold(text: string, list: seq<string>) returns (output: string)
    ensures output == Hold(text, list)
  {
    output := text;
    for i := 0 to |list|
      invariant Hold(text, list) == Hold(output, list[i..])
    {
      assert list[i..][1..] == list[i + 1..];
      output := Sub(output, list[i], [SENTINEL]);
    }
  }

  method SafeReturn(text: string, list: seq<string>) returns (output: string)
    ensures output == Return(text, list)
  {
    output := text;
    for i := 0 to |list|
      invariant Return(text, list) == Return(output, list[i..])
    {
      assert list[i..][1..] == list[i + 1..];
      output := Sub(output, [SENTINEL], list[i]);
    }
  }

  // ---- Scanning ----

  type Matcher = string -> nat

  /** The text between the matches and the matches, left to right. */
  datatype Pieces = Pieces(gaps: seq<string>, spans: seq<string>)

  ghost predicate Matches(len: Matcher, lang: string -> bool) {
    forall s ::
      && (len(s) > 0 ==> len(s) <= |s| && lang(s[..len(s)]))
      && (len(s) == 0 ==> NoPrefix(s, lang))
  }

  ghost predicate NoPrefix(s: string, lang: string -> bool) {
    forall n | 0 < n <= |s| :: !lang(s[..n])
  }

  /** `String#scan`: leftmost matches that do not overlap. */
  function Scan(text: string, len: Matcher): (r: Pieces)
    ensures |r.gaps| == |r.spans| + 1
    decreases |text|
  {
    if text == "" then Pieces([""], [])
    else if 0 < len(text) <= |text| then
      var rest := Scan(text[len(text)..], len);
      Pieces([""] + rest.gaps, [text[..len(text)]] + rest.spans)
    else
      var rest := Scan(text[1..], len);
      Pieces([[text[0]] + rest.gaps[0]] + rest.gaps[1..], rest.spans)
  }

  /** Gaps and spans in turn. */
  function Weave(gaps: seq<string>, spans: seq<string>): string
    requires |gaps| == |spans| + 1
  {
    if spans == [] then gaps[0] else gaps[0] + spans[0] + Weave(gaps[1..], spans[1..])
  }

  /** The gaps with a sentinel in between. */
  function Join(gaps: seq<string>): string
    requires gaps != []
  {
    if |gaps| == 1 then gaps[0] else gaps[0] + [SENTINEL] + Join(gaps[1..])
  }

  /** No match starts in a gap, every span is a match. */
  ghost predicate LeftmostMatches(gaps: seq<string>, spans: seq<string>, lang: string -> bool)
    requires |gaps| == |spans| + 1
    decreases |spans|
  {
    var text := Weave(gaps, spans);
    && (forall p | 0 <= p < |gaps[0]| :: NoPrefix(text[p..], lang))
    && (spans != [] ==> spans[0] != "" && lang(spans[0]) && LeftmostMatches(gaps[1..], spans[1..], lang))
  }

  lemma MatchHere(text: string, len: Matcher, lang: string -> bool)
    requires Matches(len, lang)
    ensures len(text) > 0 ==> len(text) <= |text| && lang(text[..len(text)])
    ensures len(text) == 0 ==> NoPrefix(text, lang)
  {
  }

  lemma {:induction false} ScanIsLeftmost(text: string, len: Matcher, lang: string -> bool)
    requires Matches(len, lang)
    ensures var r := Scan(text, len);
      Weave(r.gaps, r.spans) == text && LeftmostMatches(r.gaps, r.spans, lang)
    decreases |text|
  {
    MatchHere(text, len, lang);
    if text == "" {
    } else if len(text) > 0 {
      var n := len(text);
      ScanIsLeftmost(text[n..], len, lang);
      SpanFirst(text[..n], Scan(text[n..], len), lang);
      assert text[..n] + text[n..] == text;
    } else {
      var rest := Scan(text[1..], len);
      ScanIsLeftmost(text[1..], len, lang);
      GapGrows(text, rest.gaps, rest.spans, lang);
    }
  }

  lemma SpanFirst(span: string, rest: Pieces, lang: string -> bool)
    requires |rest.gaps| == |rest.spans| + 1 && span != "" && lang(span) && LeftmostMatches(rest.gaps, rest.spans, lang)
    ensures var gaps, spans := [""] + rest.gaps, [span] + rest.spans;
      Weave(gaps, spans) == span + Weave(rest.gaps, rest.spans) && LeftmostMatches(gaps, spans, lang)
  {
    var gaps, spans := [""] + rest.gaps, [span] + rest.spans;
    assert gaps[1..] == rest.gaps && spans[1..] == rest.spans;
    assert "" + span == span;
  }

  lemma WeaveGrows(c: char, gaps: seq<string>, spans: seq<string>)
    requires |gaps| == |spans| + 1
    ensures Weave([[c] + gaps[0]] + gaps[1..], spans) == [c] + Weave(gaps, spans)
  {
    var wider := [[c] + gaps[0]] + gaps[1..];
    if spans != [] {
      assert wider[1..] == gaps[1..];
      var rest := Weave(gaps[1..], spans[1..]);
      assert [c] + gaps[0] + spans[0] + rest == [c] + (gaps[0] + spans[0] + rest);
    }
  }

  lemma GapGrows(text: string, gaps: seq<string>, spans: seq<string>, lang: string -> bool)
    requires text != "" && |gaps| == |spans| + 1 && Weave(gaps, spans) == text[1..]
    requires LeftmostMatches(gaps, spans, lang) && NoPrefix(text, lang)
    ensures var wider := [[text[0]] + gaps[0]] + gaps[1..];
      Weave(wider, spans) == text && LeftmostMatches(wider, spans, lang)
  {
    var wider := [[text[0]] + gaps[0]] + gaps[1..];
    assert wider[1..] == gaps[1..];
    WeaveGrows(text[0], gaps, spans);
    assert [text[0]] + text[1..] == text;
    assert Weave(wider, spans) == [text[0]] + Weave(gaps, spans) == text;
    forall p | 0 <= p < |wider[0]| ensures NoPrefix(text[p..], lang) {
      if p == 0 {
        assert text[0..] == text;
      } else {
        assert text[p..] == text[1..][p - 1..];
      }
    }
  }

  // ---- Holding hits exactly the matches ----

  /** `h` is already held: what it has left has no match without a sentinel in it, and
      nothing can reach out of it but over a sentinel. */
  ghost predicate HeldPart(h: string, lang: string -> bool) {
    && (forall p, q | 0 <= p < q <= |h| && lang(h[p..q]) :: SENTINEL in h[p..q])
    && (h != "" ==> h[|h| - 1] == SENTINEL)
  }

  lemma NoEarlierOccurrence(h: string, gap: string, span: string, rest: string, lang: string -> bool, p: nat)
    requires HeldPart(h, lang) && lang(span) && span != "" && SENTINEL !in span
    requires forall k | 0 <= k < |gap| :: NoPrefix((gap + span + rest)[k..], lang)
    requires p < |h + gap|
    ensures !OccursAt(h + (gap + span + rest), span, p)
  {
    var text := gap + span + rest;
    var q := p + |span|;
    if q <= |h + text| {
      var s := (h + text)[p..q];
      if p >= |h| {
        assert s == text[p - |h|..][..|span|];
        assert !lang(s);
      } else if q <= |h| {
        assert s == h[p..q];
        assert lang(s) ==> SENTINEL in s;
      } else {
        assert (h + text)[|h| - 1] == SENTINEL;
        assert s[|h| - 1 - p] == SENTINEL;
        assert SENTINEL in s;
      }
    }
  }

  lemma HeldPartGrows(h: string, gap: string, rest: string, lang: string -> bool)
    requires HeldPart(h, lang)
    requires forall k | 0 <= k < |gap| :: NoPrefix((gap + rest)[k..], lang)
    ensures HeldPart(h + gap + [SENTINEL], lang)
  {
    var all := h + gap + [SENTINEL];
    forall p, q | 0 <= p < q <= |all| ensures lang(all[p..q]) ==> SENTINEL in all[p..q] {
      var s := all[p..q];
      if q == |all| {
        assert s[q - 1 - p] == SENTINEL;
      } else if q <= |h| {
        assert s == h[p..q];
      } else if p < |h| {
        assert s[|h| - 1 - p] == SENTINEL;
      } else {
        assert s == (gap + rest)[p - |h|..][..q - p];
      }
    }
  }

  lemma {:induction false} HoldHitsTheMatches(h: string, gaps: seq<string>, spans: seq<string>, lang: string -> bool)
    requires |gaps| == |spans| + 1 && LeftmostMatches(gaps, spans, lang) && HeldPart(h, lang)
    requires Free(spans)
    ensures Hold(h + Weave(gaps, spans), spans) == h + Join(gaps)
    decreases |spans|
  {
    if spans != [] {
      HoldOne(h, gaps, spans, lang);
      HoldHitsTheMatches(h + gaps[0] + [SENTINEL], gaps[1..], spans[1..], lang);
      Regroup(h, gaps[0], [SENTINEL], Join(gaps[1..]));
    }
  }

  lemma Regroup(a: string, b: string, c: string, d: string)
    ensures (a + b + c) + d == a + (b + c + d)
    ensures a + (b + c + d) == (a + b) + c + d
    ensures b + c + d == b + (c + d)
  {
  }

  /** The first term of the list hits the first match. */
  lemma HoldOne(h: string, gaps: seq<string>, spans: seq<string>, lang: string -> bool)
    requires |gaps| == |spans| + 1 && spans != [] && LeftmostMatches(gaps, spans, lang) && HeldPart(h, lang)
    requires SENTINEL !in spans[0]
    ensures var h' := h + gaps[0] + [SENTINEL];
      HeldPart(h', lang) &&
      Sub(h + Weave(gaps, spans), spans[0], [SENTINEL]) == h' + Weave(gaps[1..], spans[1..])
  {
    var gap, span, rest := gaps[0], spans[0], Weave(gaps[1..], spans[1..]);
    FirstSpan(gaps, spans, lang);
    Regroup(h, gap, span, rest);
    forall p | 0 <= p < |h + gap| ensures !OccursAt(h + (gap + span + rest), span, p) {
      NoEarlierOccurrence(h, gap, span, rest, lang, p);
    }
    SubAt(h + (gap + span + rest), h + gap, span, rest, [SENTINEL]);
    HeldPartGrows(h, gap, span + rest, lang);
  }

  lemma FirstSpan(gaps: seq<string>, spans: seq<string>, lang: string -> bool)
    requires |gaps| == |spans| + 1 && spans != [] && LeftmostMatches(gaps, spans, lang)
    ensures var rest := Weave(gaps[1..], spans[1..]);
      && Weave(gaps, spans) == gaps[0] + spans[0] + rest
      && (forall k | 0 <= k < |gaps[0]| :: NoPrefix((gaps[0] + spans[0] + rest)[k..], lang))
      && (forall k | 0 <= k < |gaps[0]| :: NoPrefix((gaps[0] + (spans[0] + rest))[k..], lang))
  {
    var rest := Weave(gaps[1..], spans[1..]);
    assert gaps[0] + (spans[0] + rest) == gaps[0] + spans[0] + rest;
  }

  // ---- Returning fills the sentinels in order ----

  /** The gaps with the spans in between as far as they go, and sentinels after that. */
  function Fill(gaps: seq<string>, spans: seq<string>): string
    requires gaps != []
  {
    if |gaps| == 1 then gaps[0]
    else if spans == [] then Join(gaps)
    else gaps[0] + spans[0] + Fill(gaps[1..], spans[1..])
  }

  lemma {:induction false} ReturnFills(h: string, gaps: seq<string>, spans: seq<string>)
    requires gaps != [] && SENTINEL !in h
    requires Free(gaps) && Free(spans) && Plain(spans)
    ensures Return(h + Join(gaps), spans) == h + Fill(gaps, spans)
    decreases |spans|
  {
    if spans != [] {
      if |gaps| == 1 {
        NothingToReturn(h + gaps[0], spans[0]);
        ReturnFills(h, gaps, spans[1..]);
      } else {
        var h' := h + gaps[0] + spans[0];
        ReturnOne(h, gaps, spans[0]);
        ReturnFills(h', gaps[1..], spans[1..]);
        Regroup(h, gaps[0], spans[0], Fill(gaps[1..], spans[1..]));
      }
    }
  }

  lemma NothingToReturn(text: string, span: string)
    requires SENTINEL !in text
    ensures Sub(text, [SENTINEL], span) == text
  {
    forall p | 0 <= p <= |text| ensures !OccursAt(text, [SENTINEL], p) {
      if p < |text| {
        assert text[p] in text && text[p..p + 1] == [text[p]];
      }
    }
  }

  lemma ReturnOne(h: string, gaps: seq<string>, span: string)
    requires |gaps| > 1 && SENTINEL !in h && SENTINEL !in gaps[0] && NoEscape(span)
    ensures Sub(h + Join(gaps), [SENTINEL], span) == h + gaps[0] + span + Join(gaps[1..])
  {
    var before, rest := h + gaps[0], Join(gaps[1..]);
    var text := before + [SENTINEL] + rest;
    assert text == h + Join(gaps);
    forall p | 0 <= p < |before| ensures !OccursAt(text, [SENTINEL], p) {
      assert text[p..p + 1] == [before[p]];
    }
    SubAt(text, before, [SENTINEL], rest, span);
  }

  lemma {:induction false} FillIsWeave(gaps: seq<string>, spans: seq<string>)
    requires |gaps| == |spans| + 1
    ensures Fill(gaps, spans) == Weave(gaps, spans)
    decreases |spans|
  {
    if spans != [] {
      FillIsWeave(gaps[1..], spans[1..]);
    }
  }

  // ---- The text without its sentinels ----

  ghost predicate Free(list: seq<string>) {
    forall k | 0 <= k < |list| :: SENTINEL !in list[k]
  }

  /** The pieces of a text between its sentinels. */
  function Split(text: string): (pieces: seq<string>)
    ensures pieces != []
  {
    if text == "" then [""]
    else
      var rest := Split(text[1..]);
      if text[0] == SENTINEL then [""] + rest else [[text[0]] + rest[0]] + rest[1..]
  }

  lemma {:induction false} SplitJoins(text: string)
    ensures Free(Split(text)) && Join(Split(text)) == text
  {
    if text != "" {
      var rest := Split(text[1..]);
      SplitJoins(text[1..]);
      assert [text[0]] + text[1..] == text;
      if text[0] == SENTINEL {
        assert ([""] + rest)[1..] == rest;
        assert "" + [SENTINEL] + text[1..] == text;
      } else {
        JoinGrows(text[0], rest);
      }
    }
  }

  lemma JoinGrows(c: char, pieces: seq<string>)
    requires pieces != []
    ensures Join([[c] + pieces[0]] + pieces[1..]) == [c] + Join(pieces)
  {
    var wider := [[c] + pieces[0]] + pieces[1..];
    if |pieces| > 1 {
      assert wider[1..] == pieces[1..];
      Regroup([c], pieces[0], [SENTINEL], Join(pieces[1..]));
      assert [c] + pieces[0] + [SENTINEL] + Join(pieces[1..]) == [c] + (pieces[0] + [SENTINEL] + Join(pieces[1..]));
    }
  }

  lemma {:induction false} SplitOfJoin(pieces: seq<string>)
    requires pieces != [] && Free(pieces)
    ensures Split(Join(pieces)) == pieces
    decreases |pieces|, |pieces[0]|
  {
    if pieces[0] != "" {
      var c := pieces[0][0];
      var less := [pieces[0][1..]] + pieces[1..];
      assert c in pieces[0];
      assert [c] + less[0] == pieces[0] && [[c] + less[0]] + less[1..] == pieces;
      JoinGrows(c, less);
      SplitOfJoin(less);
      assert Join(pieces)[1..] == Join(less);
    } else if |pieces| > 1 {
      SplitOfJoin(pieces[1..]);
      assert Join(pieces) == [SENTINEL] + Join(pieces[1..]);
      assert Join(pieces)[1..] == Join(pieces[1..]);
      assert [""] + pieces[1..] == pieces;
    }
  }

  lemma {:induction false} ScanIsFree(text: string, len: Matcher)
    requires SENTINEL !in text
    ensures Free(Scan(text, len).gaps) && Free(Scan(text, len).spans)
    decreases |text|
  {
    if text != "" {
      if 0 < len(text) <= |text| {
        ScanIsFree(text[len(text)..], len);
      } else {
        ScanIsFree(text[1..], len);
      }
    }
  }

  // ---- Main results ----

  ghost predicate Plain(spans: seq<string>) {
    forall k | 0 <= k < |spans| :: NoEscape(spans[k])
  }

  /** Holding back the matches of a text leaves exactly its gaps, and without sentinels in
      these they can be told apart. */
  lemma HoldLeavesTheGaps(text: string, len: Matcher, lang: string -> bool)
    requires Matches(len, lang) && Free(Scan(text, len).spans)
    ensures Hold(text, Scan(text, len).spans) == Join(Scan(text, len).gaps)
    ensures Free(Scan(text, len).gaps) ==> Split(Hold(text, Scan(text, len).spans)) == Scan(text, len).gaps
  {
    var r := Scan(text, len);
    ScanIsLeftmost(text, len, lang);
    HoldHitsTheMatches("", r.gaps, r.spans, lang);
    assert "" + text == text && "" + Join(r.gaps) == Join(r.gaps);
    if Free(r.gaps) {
      SplitOfJoin(r.gaps);
    }
  }

  /** Whatever the rewriting made of the held text, the spans fill its sentinels in order. */
  lemma ReturnFillsRewritten(rewritten: string, spans: seq<string>)
    requires Free(spans) && Plain(spans)
    ensures Return(rewritten, spans) == Fill(Split(rewritten), spans)
  {
    SplitJoins(rewritten);
    ReturnFills("", Split(rewritten), spans);
    assert "" + rewritten == rewritten && "" + Fill(Split(rewritten), spans) == Fill(Split(rewritten), spans);
  }

  /** Main result: hold, then return, is the identity. */
  lemma HoldThenReturn(text: string, len: Matcher, lang: string -> bool)
    requires Matches(len, lang) && SENTINEL !in text && Plain(Scan(text, len).spans)
    ensures var spans := Scan(text, len).spans; Return(Hold(text, spans), spans) == text
  {
    var r := Scan(text, len);
    ScanIsFree(text, len);
    HoldLeavesTheGaps(text, len, lang);
    ReturnFillsRewritten(Hold(text, r.spans), r.spans);
    FillIsWeave(r.gaps, r.spans);
    ScanIsLeftmost(text, len, lang);
  }

  /** Main result: if the rewriting keeps the number of sentinels, every span is back
      verbatim and in order; if it does not, either a sentinel is left or the last spans
      are lost. */
  lemma SpansSurvive(text: string, len: Matcher, rewritten: string)
    requires Free(Scan(text, len).spans) && Plain(Scan(text, len).spans)
    ensures var spans := Scan(text, len).spans;
      var pieces := Split(rewritten);
      && (|pieces| == |spans| + 1 ==> Return(rewritten, spans) == Weave(pieces, spans))
      && (|pieces| < |spans| + 1 ==> Return(rewritten, spans) == Weave(pieces, spans[..|pieces| - 1]))
      && (SENTINEL in Return(rewritten, spans) <==> |pieces| > |spans| + 1)
  {
    var spans := Scan(text, len).spans;
    var pieces := Split(rewritten);
    SplitJoins(rewritten);
    ReturnFillsRewritten(rewritten, spans);
    SentinelLeft(pieces, spans);
    if |pieces| <= |spans| + 1 {
      FillStops(pieces, spans);
      FillIsWeave(pieces, spans[..|pieces| - 1]);
      assert |pieces| == |spans| + 1 ==> spans[..|pieces| - 1] == spans;
    }
  }

  lemma {:induction false} FillStops(gaps: seq<string>, spans: seq<string>)
    requires 0 < |gaps| <= |spans| + 1
    ensures Fill(gaps, spans) == Fill(gaps, spans[..|gaps| - 1])
    decreases |gaps|
  {
    if |gaps| > 1 {
      FillStops(gaps[1..], spans[1..]);
      assert spans[..|gaps| - 1][1..] == spans[1..][..|gaps| - 2];
    }
  }

  lemma {:induction false} SentinelLeft(gaps: seq<string>, spans: seq<string>)
    requires gaps != [] && Free(gaps) && Free(spans)
    ensures SENTINEL in Fill(gaps, spans) <==> |gaps| > |spans| + 1
    decreases |gaps|
  {
    if |gaps| > 1 {
      if spans == [] {
        assert Join(gaps)[|gaps[0]|] == SENTINEL;
      } else {
        SentinelLeft(gaps[1..], spans[1..]);
      }
    }
  }

  // ---- quirkify_text ----

  /** `gsub(text, regex, quirk)` rewrites every match of the regular expression. */
  type Rewriter = (string, string, string) -> string

  function QuirkOnce(text: string, regex: string, quirk: string, len: Matcher, gsub: Rewriter): string {
    var exceptions := Scan(text, len).spans;
    Return(gsub(Hold(text, exceptions), regex, quirk), exceptions)
  }

  function Quirkified(text: string, regexes: seq<string>, quirks: seq<string>, len: Matcher, gsub: Rewriter): string
    requires |regexes| == |quirks|
    decreases |regexes|
  {
    if regexes == [] then text
    else Quirkified(QuirkOnce(text, regexes[0], quirks[0], len, gsub), regexes[1..], quirks[1..], len, gsub)
  }

  method QuirkifyText(quirks: seq<string>, regexes: seq<string>, text: string, len: Matcher, gsub: Rewriter)
    returns (result: string)
    ensures |quirks| != |regexes| ==> result == text
    ensures |quirks| == |regexes| ==> result == Quirkified(text, regexes, quirks, len, gsub)
  {
    result := text;
    if |quirks| == |regexes| {
      for i := 0 to |regexes|
        invariant Quirkified(text, regexes, quirks, len, gsub) ==
          Quirkified(result, regexes[i..], quirks[i..], len, gsub)
      {
        assert regexes[i..][1..] == regexes[i + 1..] && quirks[i..][1..] == quirks[i + 1..];
        var exceptions := Scan(result, len).spans;
        result := SafeHold(result, exceptions);
        result := gsub(result, regexes[i], quirks[i]);
        result := SafeReturn(result, exceptions);
      }
    }
  }

  /** One quirk whose rewriting keeps the number of sentinels leaves every held-back span
      where it is and rewrites the rest. */
  lemma QuirkRewritesOnlyGaps(text: string, regex: string, quirk: string, len: Matcher, lang: string -> bool, gsub: Rewriter)
    requires Matches(len, lang) && Free(Scan(text, len).spans) && Plain(Scan(text, len).spans)
    ensures var r := Scan(text, len);
      var pieces := Split(gsub(Join(r.gaps), regex, quirk));
      && text == Weave(r.gaps, r.spans)
      && (|pieces| == |r.gaps| ==> QuirkOnce(text, regex, quirk, len, gsub) == Weave(pieces, r.spans))
  {
    var r := Scan(text, len);
    ScanIsLeftmost(text, len, lang);
    HoldLeavesTheGaps(text, len, lang);
    SpansSurvive(text, len, gsub(Hold(text, r.spans), regex, quirk));
  }

  /** `stages` are the texts between the quirks: the spans of each are held back, the pair
      at its place rewrites what is left, and the spans are put back. */
  ghost predicate QuirkStages(text: string, regexes: seq<string>, quirks: seq<string>, len: Matcher, gsub: Rewriter,
                              stages: seq<string>)
    requires |regexes| == |quirks|
  {
    && |stages| == |regexes| + 1 && stages[0] == text
    && forall i | 0 <= i < |regexes| ::
         var spans := Scan(stages[i], len).spans;
         stages[i + 1] == Return(gsub(Hold(stages[i], spans), regexes[i], quirks[i]), spans)
  }

  /** Main result on the loop: every quirk is applied, each to what the one before it made
      of the text. */
  lemma {:induction false} QuirkifiedIsLastStage(text: string, regexes: seq<string>, quirks: seq<string>,
                                                len: Matcher, gsub: Rewriter, stages: seq<string>)
    requires |regexes| == |quirks| && QuirkStages(text, regexes, quirks, len, gsub, stages)
    ensures Quirkified(text, regexes, quirks, len, gsub) == stages[|regexes|]
    decreases |regexes|
  {
    if regexes != [] {
      QuirkifiedIsLastStage(stages[1], regexes[1..], quirks[1..], len, gsub, stages[1..]);
    }
  }

  /** `after` is `before` with its gaps rewritten and its spans where they were. */
  ghost predicate GapsRewritten(before: string, after: string, regex: string, quirk: string, len: Matcher, gsub: Rewriter) {
    var r := Scan(before, len);
    var pieces := Split(gsub(Join(r.gaps), regex, quirk));
    Free(r.spans) && Plain(r.spans) && |pieces| == |r.gaps| && after == Weave(pieces, r.spans)
  }

  /** As long as every rewriting keeps the number of sentinels, all quirks together rewrite
      the gaps only, each the gaps of what the one before it left. */
  lemma {:induction false} QuirksRewriteOnlyGaps(text: string, regexes: seq<string>, quirks: seq<string>,
                                                len: Matcher, lang: string -> bool, gsub: Rewriter, stages: seq<string>)
    requires |regexes| == |quirks| && |stages| == |regexes| + 1 && stages[0] == text && Matches(len, lang)
    requires forall i | 0 <= i < |regexes| :: GapsRewritten(stages[i], stages[i + 1], regexes[i], quirks[i], len, gsub)
    ensures Quirkified(text, regexes, quirks, len, gsub) == stages[|regexes|]
    decreases |regexes|
  {
    if regexes != [] {
      assert GapsRewritten(stages[0], stages[0 + 1], regexes[0], quirks[0], len, gsub);
      QuirkRewritesOnlyGaps(text, regexes[0], quirks[0], len, lang, gsub);
      forall i | 0 <= i < |regexes[1..]|
        ensures GapsRewritten(stages[1..][i], stages[1..][i + 1], regexes[1..][i], quirks[1..][i], len, gsub)
      {
        assert GapsRewritten(stages[i + 1], stages[i + 1 + 1], regexes[i + 1], quirks[i + 1], len, gsub);
      }
      QuirksRewriteOnlyGaps(stages[1], regexes[1..], quirks[1..], len, lang, gsub, stages[1..]);
    }
  }

  /** Quirks whose regular expressions match nothing change nothing. */
  lemma {:induction false} QuirksThatMatchNothing(text: string, regexes: seq<string>, quirks: seq<string>,
                                                 len: Matcher, lang: string -> bool, gsub: Rewriter)
    requires |regexes| == |quirks|
    requires Matches(len, lang) && SENTINEL !in text && Plain(Scan(text, len).spans)
    requires forall held, i | 0 <= i < |regexes| :: gsub(held, regexes[i], quirks[i]) == held
    ensures Quirkified(text, regexes, quirks, len, gsub) == text
    decreases |regexes|
  {
    if regexes != [] {
      HoldThenReturn(text, len, lang);
      QuirksThatMatchNothing(text, regexes[1..], quirks[1..], len, lang, gsub);
    }
  }
}
