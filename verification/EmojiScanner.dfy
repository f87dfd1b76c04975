/** The scan of `encode_custom_emojis`, which rewrites the HTML under its own cursor. */
module EmojiScanner {
  import opened Wrappers
  import opened EmojiTokens

  /** The mode of a reader whose cursor is on `html[i]`. */
  ghost function ModeAt(html: string, i: int, tagOpen: Option<nat>, inside: bool, start: int, depth: nat): Mode
    requires CursorOk(html, i, tagOpen, inside, start)
  {
    Mode(if tagOpen.Some? then Some(html[tagOpen.value..i + 1]) else None,
         if inside then Some(html[start + 1..i + 1]) else None,
         depth)
  }

  ghost predicate CursorOk(html: string, i: int, tagOpen: Option<nat>, inside: bool, start: int) {
    && -1 <= i < |html|
    && (tagOpen.Some? ==> tagOpen.value <= i && !inside)
    && (inside ==> 0 <= start <= i && html[start] == ':')
  }

  /** What is settled before the cursor, followed by the rewriting of what is after it,
      is the result. */
  ghost predicate ScanInv(html: string, i: int, tagOpen: Option<nat>, inside: bool, start: int, depth: nat,
                          emojis: Emojis, result: string)
  {
    && CursorOk(html, i, tagOpen, inside, start)
    && var m := ModeAt(html, i, tagOpen, inside, start, depth);
       Valid(m) && Yields(html[..if inside then start else i + 1], html[i + 1..], m, emojis, result)
  }

  ghost predicate Yields(before: string, unread: string, m: Mode, emojis: Emojis, result: string)
    requires Valid(m)
  {
    before + Rewrite(unread, m, emojis) == result
  }

  /** The closing colon of a possible shortcode is at the cursor: put the image in and
      leave the cursor just before its end, or step back to read the colon again. */
  method CompleteShortname(source: string, index: int, start: int, emojis: Emojis, ghost result: string)
    returns (html: string, i: int)
    requires 0 <= index < |source| && ScanInv(source, index - 1, None, true, start, 0, emojis, result)
    requires source[index] == ':'
    ensures ScanInv(html, i, None, false, start, 0, emojis, result)
    ensures |html| - (i + 1) == |source| - index
  {
    html, i := source, index;
    var shortcode := html[start + 1..i];
    if shortcode in emojis {
      var replacement := Image(shortcode, emojis[shortcode]);
      var beforeHtml := if start > 0 then html[..start] else "";
      PlaceImage(html, i, start, shortcode, replacement, emojis, result);
      html := beforeHtml + replacement + html[i + 1..];
      i := i + |replacement| - (|shortcode| + 2) - 1;
    } else {
      Miss(html, i, start, emojis, result);
      i := i - 1;
    }
  }

  /** The tag opened at `open` ends at the cursor: count the elements of an invisible span. */
  method LeaveTag(html: string, i: int, open: nat, start: int, before: nat, emojis: Emojis, ghost result: string)
    returns (depth: nat)
    requires 0 <= i < |html| && html[i] == '>' && ScanInv(html, i - 1, Some(open), false, start, before, emojis, result)
    ensures ScanInv(html, i, None, false, start, depth, emojis, result)
  {
    CloseTag(html, i, open, start, before, emojis, result);
    var tag := html[open..i + 1];
    depth := before;
    if depth > 0 {
      depth := depth + CountTagNesting(tag);
    } else if tag == INVISIBLE {
      depth := 1;
    }
  }

  method EncodeCustomEmojis(source: string, emojis: Emojis) returns (html: string)
    ensures html == Rewrite(source, START, emojis)
  {
    if emojis == map[] {
      NothingToReplace(source, START);
      return source;
    }
    html := source;
    var i := -1;
    var tagOpenIndex: Option<nat> := None;
    var insideShortname := false;
    var shortnameStartIndex := -1;
    var invisibleDepth: nat := 0;
    ghost var result := Rewrite(source, START, emojis);
    AtStart(source, emojis);
    while i + 1 < |html|
      invariant ScanInv(html, i, tagOpenIndex, insideShortname, shortnameStartIndex, invisibleDepth, emojis, result)
      decreases |html| - (i + 1), insideShortname
    {
      i := i + 1;
      if invisibleDepth == 0 && insideShortname && html[i] == ':' {
        html, i := CompleteShortname(html, i, shortnameStartIndex, emojis, result);
        insideShortname := false;
      } else if tagOpenIndex.Some? && html[i] == '>' {
        invisibleDepth := LeaveTag(html, i, tagOpenIndex.value, shortnameStartIndex, invisibleDepth, emojis, result);
        tagOpenIndex := None;
      } else if html[i] == '<' {
        OpenTag(html, i, tagOpenIndex, insideShortname, shortnameStartIndex, invisibleDepth, emojis, result);
        tagOpenIndex := Some(i);
        insideShortname := false;
      } else if tagOpenIndex.None? && html[i] == ':' {
        OpenShortname(html, i, insideShortname, shortnameStartIndex, invisibleDepth, emojis, result);
        insideShortname := true;
        shortnameStartIndex := i;
      } else {
        PassOver(html, i, tagOpenIndex, insideShortname, shortnameStartIndex, invisibleDepth, emojis, result);
      }
    }
    AtEnd(html, i, tagOpenIndex, insideShortname, shortnameStartIndex, invisibleDepth, emojis, result);
  }

  /** With no emojis nothing is ever replaced. */
  lemma {:induction false} NothingToReplace(s: string, m: Mode)
    requires Valid(m)
    ensures Rewrite(s, m, map[]) == Held(m) + s
    decreases |s|
  {
    if s == "" {
      RewriteEnd(m, map[]);
    } else {
      var (token, next) := Step(m, s[0], map[]);
      RewriteCons(s, m, map[]);
      NothingToReplace(s[1..], next);
      StepKeepsSource(m, s[0], map[]);
      Regroup(Source(token), Held(next), s[1..], Held(m), s);
    }
  }

  lemma AtStart(source: string, emojis: Emojis)
    ensures ScanInv(source, -1, None, false, -1, 0, emojis, Rewrite(source, START, emojis))
  {
    assert source[0..] == source;
    assert source[..0] + Rewrite(source, START, emojis) == Rewrite(source, START, emojis);
  }

  lemma AtEnd(html: string, i: int, tagOpen: Option<nat>, inside: bool, start: int, depth: nat, emojis: Emojis, result: string)
    requires i + 1 == |html| && ScanInv(html, i, tagOpen, inside, start, depth, emojis, result)
    ensures html == result
  {
    assert html[i + 1..] == "" && html[..i + 1] == html;
    EndYields(html[..if inside then start else i + 1], ModeAt(html, i, tagOpen, inside, start, depth), emojis, result);
    if inside {
      HeldPart(html, i + 1, start);
    }
  }

  lemma EndYields(before: string, m: Mode, emojis: Emojis, result: string)
    requires Valid(m) && Yields(before, "", m, emojis, result)
    ensures result == before + Held(m)
    ensures m.pending.None? ==> result == before
  {
    RewriteEnd(m, emojis);
    assert before + "" == before;
  }

  // ---- One turn of the loop, with the cursor already on `html[i]` ----

  /** Reading the character at the cursor settles what its token renders to. */
  lemma Turn(html: string, i: int, before: string, m: Mode, emojis: Emojis, result: string)
    requires 0 <= i < |html| && Valid(m) && Yields(before, html[i..], m, emojis, result)
    ensures var (token, next) := Step(m, html[i], emojis);
      Yields(before + RenderToken(token, emojis), html[i + 1..], next, emojis, result)
  {
    var (token, next) := Step(m, html[i], emojis);
    RewriteCons(html[i..], m, emojis);
    assert html[i..][1..] == html[i + 1..];
    Joined(before, RenderToken(token, emojis), Rewrite(html[i + 1..], next, emojis));
  }

  /** The converse: what has just been read as plain text may be read once more. */
  lemma TurnBack(html: string, i: int, before: string, m: Mode, emojis: Emojis, result: string)
    requires 0 <= i < |html| && Valid(m)
    requires var (token, next) := Step(m, html[i], emojis);
      Yields(before + RenderToken(token, emojis), html[i + 1..], next, emojis, result)
    ensures Yields(before, html[i..], m, emojis, result)
  {
    var (token, next) := Step(m, html[i], emojis);
    RewriteCons(html[i..], m, emojis);
    assert html[i..][1..] == html[i + 1..];
    Joined(before, RenderToken(token, emojis), Rewrite(html[i + 1..], next, emojis));
  }

  /** The settled part with the held-back colon and shortcode is the HTML up to the cursor. */
  lemma HeldPart(html: string, i: int, start: int)
    requires 0 <= start < i <= |html| && html[start] == ':'
    ensures html[..start] + (":" + html[start + 1..i]) == html[..i]
    ensures i < |html| ==> html[..start] + (":" + html[start + 1..i] + [html[i]]) == html[..i + 1]
  {
    var held := ":" + html[start + 1..i];
    assert html[..start] + held == html[..i];
    if i < |html| {
      assert html[..start] + (held + [html[i]]) == html[..i] + [html[i]];
      Extend(html, i);
    }
  }

  lemma Extend(html: string, i: int)
    requires 0 <= i < |html|
    ensures html[..i + 1] == html[..i] + [html[i]]
  {
  }

  lemma PlaceImage(html: string, i: int, start: int, code: string, image: string, emojis: Emojis, result: string)
    requires 0 <= i < |html| && ScanInv(html, i - 1, None, true, start, 0, emojis, result)
    requires html[i] == ':' && code == html[start + 1..i] && code in emojis
    requires image == RenderToken(Emoji(code), emojis)
    ensures |image| >= 2
    ensures ScanInv(html[..start] + image + html[i + 1..], start + |image| - 2, None, false, start, 0, emojis, result)
  {
    ImageEnds(code, emojis[code]);
    ShortcodeYields(html, i, start, image, emojis, result);
    CursorInImage(html[..start], image, html[i + 1..], start, emojis, result);
  }

  lemma CursorInImage(before: string, image: string, rest: string, start: int, emojis: Emojis, result: string)
    requires |image| >= 2 && image[|image| - 1] == '>' && |before| == start
    requires Yields(before + image, rest, START, emojis, result)
    ensures ScanInv(before + image + rest, start + |image| - 2, None, false, start, 0, emojis, result)
  {
    ResumeInImage(before, image, rest, emojis, result);
  }

  lemma ShortcodeYields(html: string, i: int, start: int, image: string, emojis: Emojis, result: string)
    requires 0 <= i < |html| && ScanInv(html, i - 1, None, true, start, 0, emojis, result)
    requires var code := html[start + 1..i];
      html[i] == ':' && code in emojis && image == RenderToken(Emoji(code), emojis)
    ensures Yields(html[..start] + image, html[i + 1..], START, emojis, result)
  {
    Turn(html, i, html[..start], Mode(None, Some(html[start + 1..i]), 0), emojis, result);
  }

  lemma ImageEnds(code: string, url: string)
    ensures |Image(code, url)| >= 2 && Image(code, url)[|Image(code, url)| - 1] == '>'
  {
  }

  /** The cursor is left on the last but one character of the image, so that its `>` is
      read once more, as plain text. */
  lemma ResumeInImage(before: string, image: string, rest: string, emojis: Emojis, result: string)
    requires |image| >= 2 && image[|image| - 1] == '>'
    requires Yields(before + image, rest, START, emojis, result)
    ensures var html := before + image + rest;
      var k := |before| + |image| - 1;
      Yields(html[..k], html[k..], START, emojis, result)
  {
    var html := before + image + rest;
    var k := |before| + |image| - 1;
    assert html[k] == '>' && html[k + 1..] == rest;
    assert html[..k] + ">" == before + image;
    TurnBack(html, k, html[..k], START, emojis, result);
  }

  lemma Miss(html: string, i: int, start: int, emojis: Emojis, result: string)
    requires 0 <= i < |html| && ScanInv(html, i - 1, None, true, start, 0, emojis, result)
    requires html[i] == ':' && html[start + 1..i] !in emojis
    ensures ScanInv(html, i - 1, None, false, start, 0, emojis, result)
  {
    Turn(html, i, html[..start], Mode(None, Some(html[start + 1..i]), 0), emojis, result);
    HeldPart(html, i, start);
    assert html[..i] + "" == html[..i];
    TurnBack(html, i, html[..i], START, emojis, result);
  }

  lemma CloseTag(html: string, i: int, open: nat, start: int, depth: nat, emojis: Emojis, result: string)
    requires 0 <= i < |html| && ScanInv(html, i - 1, Some(open), false, start, depth, emojis, result)
    requires html[i] == '>'
    ensures |html[open..i + 1]| >= 2
    ensures ScanInv(html, i, None, false, start, DepthAfter(depth, html[open..i + 1]), emojis, result)
  {
    Turn(html, i, html[..i], Mode(Some(html[open..i]), None, depth), emojis, result);
    assert html[open..i + 1] == html[open..i] + [html[i]];
    Extend(html, i);
  }

  lemma OpenTag(html: string, i: int, tagOpen: Option<nat>, inside: bool, start: int, depth: nat, emojis: Emojis, result: string)
    requires 0 <= i < |html| && ScanInv(html, i - 1, tagOpen, inside, start, depth, emojis, result)
    requires html[i] == '<'
    ensures ScanInv(html, i, Some(i), false, start, depth, emojis, result)
  {
    var m := ModeAt(html, i - 1, tagOpen, inside, start, depth);
    Turn(html, i, html[..if inside then start else i], m, emojis, result);
    assert html[i..i + 1] == [html[i]];
    if inside {
      HeldPart(html, i, start);
    } else {
      assert Held(m) + [html[i]] == [html[i]];
      Extend(html, i);
    }
  }

  lemma OpenShortname(html: string, i: int, inside: bool, start: int, depth: nat, emojis: Emojis, result: string)
    requires 0 <= i < |html| && ScanInv(html, i - 1, None, inside, start, depth, emojis, result)
    requires html[i] == ':' && !(depth == 0 && inside)
    ensures ScanInv(html, i, None, true, i, depth, emojis, result)
  {
    Turn(html, i, html[..if inside then start else i], ModeAt(html, i - 1, None, inside, start, depth), emojis, result);
    assert html[i + 1..i + 1] == "";
    if inside {
      HeldPart(html, i, start);
    } else {
      assert html[..i] + "" == html[..i];
    }
  }

  lemma PassOver(html: string, i: int, tagOpen: Option<nat>, inside: bool, start: int, depth: nat, emojis: Emojis, result: string)
    requires 0 <= i < |html| && ScanInv(html, i - 1, tagOpen, inside, start, depth, emojis, result)
    requires html[i] != '<' && (html[i] == '>' ==> tagOpen.None?) && (html[i] == ':' ==> tagOpen.Some?)
    ensures ScanInv(html, i, tagOpen, inside, start, depth, emojis, result)
  {
    var before := html[..if inside then start else i];
    Turn(html, i, before, ModeAt(html, i - 1, tagOpen, inside, start, depth), emojis, result);
    if inside {
      assert html[start + 1..i + 1] == html[start + 1..i] + [html[i]];
      assert before + "" == before;
    } else {
      Extend(html, i);
      if tagOpen.Some? {
        assert html[tagOpen.value..i + 1] == html[tagOpen.value..i] + [html[i]];
      }
    }
  }
}
