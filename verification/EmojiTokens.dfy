/** A pure left-to-right reading of the HTML that `encode_custom_emojis` rewrites, and
    what the rewriting means in terms of it. */
module EmojiTokens {
  import opened Wrappers

  /** Shortcodes with the address of their image. */
  type Emojis = map<string, string>

  datatype Token = Text(text: string) | Emoji(code: string)

  /** The state of the reader.  `tag` is the open tag from its `<` on, `pending` what
      follows a colon that may start a shortcode, `depth` how many elements deep the
      reader is inside an invisible span. */
  datatype Mode = Mode(tag: Option<string>, pending: Option<string>, depth: nat)

  const START := Mode(None, None, 0)

  const INVISIBLE_BODY := "span" + Attribute("class", "invisible")

  /** `<span class="invisible">` */
  const INVISIBLE := "<" + INVISIBLE_BODY + ">"

  function Attribute(name: string, value: string): string {
    " " + name + "=\"" + value + "\""
  }

  // ---- Reading ----

  /** -1 for a closing tag, 0 for a self-closing one, 1 for an opening one. */
  function CountTagNesting(tag: string): int
    requires |tag| >= 2
  {
    if tag[1] == '/' then -1
    else if tag[|tag| - 2] == '/' then 0
    else 1
  }

  function DepthAfter(depth: nat, tag: string): nat
    requires |tag| >= 2
  {
    if depth > 0 then depth + CountTagNesting(tag)
    else if tag == INVISIBLE then 1
    else 0
  }

  /** Outside invisible spans only the one tag counts.  Inside, a tag counts by the slash it
      begins or ends with, whatever else is between its brackets. */
  lemma DepthAfterMeans(depth: nat, body: string)
    ensures var after := DepthAfter(depth, "<" + body + ">");
      if depth == 0 then (after == 1 || after == 0) && (after == 1 <==> body == "span class=\"invisible\"")
      else if body != "" && body[0] == '/' then after == depth - 1
      else if body != "" && body[|body| - 1] == '/' then after == depth
      else after == depth + 1
  {
    var tag := "<" + body + ">";
    assert tag[1..|tag| - 1] == body && INVISIBLE[1..|INVISIBLE| - 1] == INVISIBLE_BODY;
    assert INVISIBLE_BODY == "span class=\"invisible\"";
    if body != "" {
      assert tag[1] == body[0] && tag[|tag| - 2] == body[|body| - 1];
    } else {
      assert tag == "<>";
    }
  }

  /** The colon and what follows it, while nothing has been decided about them. */
  function Held(m: Mode): string {
    if m.pending.Some? then ":" + m.pending.value else ""
  }

  ghost predicate Valid(m: Mode) {
    && (m.tag.Some? ==> |m.tag.value| >= 1 && m.pending.None?)
    && (m.pending.Some? ==> ':' !in m.pending.value && '<' !in m.pending.value)
  }

  /** One character: the token it completes and the mode after it. */
  function Step(m: Mode, c: char, emojis: Emojis): (r: (Token, Mode))
    requires Valid(m)
    ensures Valid(r.1)
  {
    if m.depth == 0 && m.pending.Some? && c == ':' then
      if m.pending.value in emojis then (Emoji(m.pending.value), m.(pending := None))
      else (Text(Held(m)), m.(pending := Some("")))
    else if m.tag.Some? && c == '>' then
      (Text([c]), Mode(None, None, DepthAfter(m.depth, m.tag.value + [c])))
    else if c == '<' then
      (Text(Held(m) + [c]), Mode(Some([c]), None, m.depth))
    else if m.tag.None? && c == ':' then
      (Text(Held(m)), m.(pending := Some("")))
    else if m.pending.Some? then
      (Text(""), m.(pending := Some(m.pending.value + [c])))
    else if m.tag.Some? then
      (Text([c]), m.(tag := Some(m.tag.value + [c])))
    else
      (Text([c]), m)
  }

  function Tokenize(s: string, m: Mode, emojis: Emojis): seq<Token>
    requires Valid(m)
    decreases |s|
  {
    if s == "" then [Text(Held(m))]
    else
      var (token, next) := Step(m, s[0], emojis);
      [token] + Tokenize(s[1..], next, emojis)
  }

  // ---- Writing ----

  /** `HTMLEntities#encode`. */
  function Encode(s: string): (r: string)
    ensures '<' !in r && '>' !in r && '\"' !in r
  {
    if s == "" then "" else EncodeChar(s[0]) + Encode(s[1..])
  }

  function EncodeChar(c: char): (r: string)
    ensures '<' !in r && '>' !in r && '\"' !in r
  {
    match c
    case '<' => "&lt;"
    case '>' => "&gt;"
    case '&' => "&amp;"
    case '\"' => "&quot;"
    case '\'' => "&#39;"
    case _ => [c]
  }

  /** The character a browser reads at the start of a text, and its length there. */
  function Entity(s: string): (r: (char, nat))
    requires s != ""
    ensures 0 < r.1 <= |s|
  {
    if "&lt;" <= s then ('<', 4)
    else if "&gt;" <= s then ('>', 4)
    else if "&amp;" <= s then ('&', 5)
    else if "&quot;" <= s then ('\"', 6)
    else if "&#39;" <= s then ('\'', 5)
    else (s[0], 1)
  }

  function Decode(s: string): string {
    if s == "" then "" else [Entity(s).0] + Decode(s[Entity(s).1..])
  }

  lemma OtherPrefix(p: string, s: string)
    requires p <= s && |p| > 1
    ensures |s| > 1 && p[0] == s[0] && p[1] == s[1]
  {
    assert p[0] == s[0] && p[1] == s[1];
  }

  lemma EntityOfEncoded(c: char, rest: string)
    ensures Entity(EncodeChar(c) + rest) == (c, |EncodeChar(c)|)
  {
    var code := EncodeChar(c);
    var s := code + rest;
    assert code <= s && s[0] == code[0] && (|code| > 1 ==> s[1] == code[1]);
    if "&lt;" <= s { OtherPrefix("&lt;", s); }
    if "&gt;" <= s { OtherPrefix("&gt;", s); }
    if "&amp;" <= s { OtherPrefix("&amp;", s); }
    if "&quot;" <= s { OtherPrefix("&quot;", s); }
    if "&#39;" <= s { OtherPrefix("&#39;", s); }
  }

  lemma DecodeCons(c: char, rest: string)
    ensures Decode(EncodeChar(c) + rest) == [c] + Decode(rest)
  {
    var code := EncodeChar(c);
    EntityOfEncoded(c, rest);
    assert (code + rest)[|code|..] == rest;
  }

  /** Whatever is in it, what was encoded is read as it was. */
  lemma {:induction false} EncodeIsRead(s: string)
    ensures Decode(Encode(s)) == s
  {
    if s != "" {
      EncodeIsRead(s[1..]);
      DecodeCons(s[0], Encode(s[1..]));
      assert [s[0]] + s[1..] == s;
    }
  }

  function Concat(parts: seq<string>): string {
    if parts == [] then "" else parts[0] + Concat(parts[1..])
  }

  /** An image tag between its brackets. */
  function ImageBody(code: string, url: string): string {
    Concat(["img",
            Attribute("draggable", "false"),
            Attribute("class", "emojione"),
            Attribute("alt", ":" + Encode(code) + ":"),
            Attribute("title", ":" + Encode(code) + ":"),
            Attribute("src", Encode(url)),
            " /"])
  }

  function Image(code: string, url: string): string {
    "<" + ImageBody(code, url) + ">"
  }

  lemma AttributesAre(code: string, url: string)
    ensures Attribute("alt", ":" + code + ":") == " alt=\":" + code + ":\""
    ensures Attribute("title", ":" + code + ":") == " title=\":" + code + ":\""
    ensures Attribute("src", url) == " src=\"" + url + "\""
  {
  }

  lemma ImageStart()
    ensures "img" + Attribute("draggable", "false") + Attribute("class", "emojione") ==
      "img draggable=\"false\" class=\"emojione\""
  {
  }

  /** The image carries the shortcode twice and the address once, encoded. */
  lemma ImageIsTag(code: string, url: string)
    ensures ImageBody(code, url) ==
      "img draggable=\"false\" class=\"emojione\""
      + (" alt=\":" + Encode(code) + ":\"")
      + (" title=\":" + Encode(code) + ":\"")
      + (" src=\"" + Encode(url) + "\"")
      + " /"
    ensures Image(code, url) == "<" + ImageBody(code, url) + ">"
  {
    AttributesAre(Encode(code), Encode(url));
    ImageStart();
    Concat7(["img",
             Attribute("draggable", "false"),
             Attribute("class", "emojione"),
             Attribute("alt", ":" + Encode(code) + ":"),
             Attribute("title", ":" + Encode(code) + ":"),
             Attribute("src", Encode(url)),
             " /"]);
  }

  lemma Concat7(parts: seq<string>)
    requires |parts| == 7
    ensures Concat(parts) == parts[0] + parts[1] + parts[2] + parts[3] + parts[4] + parts[5] + parts[6]
  {
    assert Concat(parts[6..]) == parts[6];
    assert parts[5..][1..] == parts[6..] && parts[4..][1..] == parts[5..] && parts[3..][1..] == parts[4..];
    assert parts[2..][1..] == parts[3..] && parts[1..][1..] == parts[2..];
    assert Concat(parts[5..]) == parts[5] + Concat(parts[6..]);
    assert Concat(parts[4..]) == parts[4] + Concat(parts[5..]);
    assert Concat(parts[3..]) == parts[3] + Concat(parts[4..]);
    assert Concat(parts[2..]) == parts[2] + Concat(parts[3..]);
    assert Concat(parts[1..]) == parts[1] + Concat(parts[2..]);
  }

  function RenderToken(t: Token, emojis: Emojis): string {
    match t
    case Text(text) => text
    case Emoji(code) => if code in emojis then Image(code, emojis[code]) else ":" + code + ":"
  }

  function Render(tokens: seq<Token>, emojis: Emojis): string {
    if tokens == [] then "" else RenderToken(tokens[0], emojis) + Render(tokens[1..], emojis)
  }

  /** The rewriting: read from a mode, write the images in. */
  function Rewrite(s: string, m: Mode, emojis: Emojis): string
    requires Valid(m)
  {
    Render(Tokenize(s, m, emojis), emojis)
  }

  /** The source text of a token. */
  function Source(t: Token): string {
    match t
    case Text(text) => text
    case Emoji(code) => ":" + code + ":"
  }

  function Sources(tokens: seq<Token>): string {
    if tokens == [] then "" else Source(tokens[0]) + Sources(tokens[1..])
  }

  // ---- Putting the shortcodes back gives the input ----

  lemma StepKeepsSource(m: Mode, c: char, emojis: Emojis)
    requires Valid(m)
    ensures Source(Step(m, c, emojis).0) + Held(Step(m, c, emojis).1) == Held(m) + [c]
  {
  }

  lemma SourcesCons(t: Token, tokens: seq<Token>)
    ensures Sources([t] + tokens) == Source(t) + Sources(tokens)
  {
    assert ([t] + tokens)[1..] == tokens;
  }

  lemma RewriteCons(s: string, m: Mode, emojis: Emojis)
    requires Valid(m) && s != ""
    ensures var (token, next) := Step(m, s[0], emojis);
      Rewrite(s, m, emojis) == RenderToken(token, emojis) + Rewrite(s[1..], next, emojis)
  {
    var (token, next) := Step(m, s[0], emojis);
    assert Tokenize(s, m, emojis)[1..] == Tokenize(s[1..], next, emojis);
  }

  lemma RewriteEnd(m: Mode, emojis: Emojis)
    requires Valid(m)
    ensures Rewrite("", m, emojis) == Held(m)
  {
    var tokens := Tokenize("", m, emojis);
    assert tokens == [Text(Held(m))] && tokens[1..] == [];
    assert Render(tokens, emojis) == Held(m) + Render([], emojis);
  }

  lemma {:induction false} SourcesAreInput(s: string, m: Mode, emojis: Emojis)
    requires Valid(m)
    ensures Sources(Tokenize(s, m, emojis)) == Held(m) + s
    decreases |s|
  {
    if s == "" {
      SourcesCons(Text(Held(m)), []);
    } else {
      var (token, next) := Step(m, s[0], emojis);
      var rest := s[1..];
      SourcesCons(token, Tokenize(rest, next, emojis));
      SourcesAreInput(rest, next, emojis);
      StepKeepsSource(m, s[0], emojis);
      Regroup(Source(token), Held(next), rest, Held(m), s);
    }
  }

  lemma Regroup(a: string, b: string, rest: string, h: string, s: string)
    requires s != "" && rest == s[1..] && a + b == h + [s[0]]
    ensures a + (b + rest) == h + s
  {
    assert a + (b + rest) == (a + b) + rest;
    assert h + s == (h + [s[0]]) + rest;
  }

  // ---- Only text outside tags and outside invisible spans becomes an image ----

  /** Where a position of the HTML is, by its angle brackets alone. */
  datatype Layout = Layout(tag: Option<string>, depth: nat)

  ghost predicate Laid(l: Layout) {
    l.tag.Some? ==> |l.tag.value| >= 1
  }

  function LayoutStep(l: Layout, c: char): (r: Layout)
    requires Laid(l)
    ensures Laid(r)
  {
    if l.tag.Some? && c == '>' then Layout(None, DepthAfter(l.depth, l.tag.value + [c]))
    else if c == '<' then Layout(Some([c]), l.depth)
    else if l.tag.Some? then Layout(Some(l.tag.value + [c]), l.depth)
    else l
  }

  function Walk(l: Layout, s: string): (r: Layout)
    requires Laid(l)
    ensures Laid(r)
    decreases |s|
  {
    if s == "" then l else Walk(LayoutStep(l, s[0]), s[1..])
  }

  predicate InVisibleText(l: Layout) {
    l == Layout(None, 0)
  }

  /** Every image stands for a stretch of source that starts in visible text and has no
      angle bracket, so that it is in visible text all along. */
  ghost predicate ImagesInText(tokens: seq<Token>, l: Layout)
    requires Laid(l)
  {
    tokens != [] ==>
      && (tokens[0].Emoji? ==> InVisibleText(l) && '<' !in tokens[0].code && ':' !in tokens[0].code)
      && ImagesInText(tokens[1..], Walk(l, Source(tokens[0])))
  }

  lemma {:induction false} WalkConcat(l: Layout, a: string, b: string)
    requires Laid(l)
    ensures Walk(l, a + b) == Walk(Walk(l, a), b)
    decreases |a|
  {
    if a == "" {
      assert a + b == b;
    } else {
      assert (a + b)[1..] == a[1..] + b;
      WalkConcat(LayoutStep(l, a[0]), a[1..], b);
    }
  }

  lemma {:induction false} WalkText(l: Layout, s: string)
    requires Laid(l) && l.tag.None? && '<' !in s
    ensures Walk(l, s) == l
    decreases |s|
  {
    if s != "" {
      WalkText(l, s[1..]);
    }
  }

  /** The reader agrees with the layout, whatever it holds back. */
  lemma StepFollowsLayout(m: Mode, c: char, emojis: Emojis)
    requires Valid(m)
    ensures var (token, next) := Step(m, c, emojis);
      Walk(Layout(m.tag, m.depth), Source(token)) == Layout(next.tag, next.depth)
  {
    var l := Layout(m.tag, m.depth);
    var (token, next) := Step(m, c, emojis);
    if m.pending.Some? {
      WalkText(l, Held(m));
    }
    match token {
      case Emoji(code) => WalkText(l, Source(token));
      case Text(text) =>
        if c == '<' {
          WalkConcat(l, Held(m), [c]);
        }
        assert Walk(LayoutStep(l, c), "") == LayoutStep(l, c);
        assert [c][1..] == "";
    }
  }

  /** Main result on places: images stand only for visible text. */
  lemma {:induction false} ImagesOnlyInText(s: string, m: Mode, emojis: Emojis)
    requires Valid(m)
    ensures ImagesInText(Tokenize(s, m, emojis), Layout(m.tag, m.depth))
    decreases |s|
  {
    if s == "" {
      assert Tokenize(s, m, emojis)[1..] == [];
    } else {
      var (token, next) := Step(m, s[0], emojis);
      StepFollowsLayout(m, s[0], emojis);
      ImagesOnlyInText(s[1..], next, emojis);
      assert Tokenize(s, m, emojis)[1..] == Tokenize(s[1..], next, emojis);
    }
  }

  // ---- Reading stretches of HTML ----

  lemma Shift(a: string, p: string)
    requires p != ""
    ensures (a + [p[0]]) + p[1..] == a + p
  {
  }

  /** Reading a held-back colon and text again from a mode that cannot complete a
      shortcode at the colon. */
  lemma {:induction false} ReadText(p: string, x: string, m: Mode, emojis: Emojis)
    requires Valid(m) && m.pending.Some? && ':' !in p && '<' !in p
    ensures Valid(m.(pending := Some(m.pending.value + p)))
    ensures Rewrite(p + x, m, emojis) == Rewrite(x, m.(pending := Some(m.pending.value + p)), emojis)
    decreases |p|
  {
    if p == "" {
      assert p + x == x && m.pending.value + p == m.pending.value;
    } else {
      var next := m.(pending := Some(m.pending.value + [p[0]]));
      assert p[0] in p;
      RewriteCons(p + x, m, emojis);
      assert (p + x)[1..] == p[1..] + x;
      ReadText(p[1..], x, next, emojis);
      Shift(m.pending.value, p);
    }
  }

  /** The mode does not turn a colon into an image. */
  ghost predicate Harmless(b: Mode, emojis: Emojis) {
    Valid(b) && b.tag.None? && (b.depth == 0 && b.pending.Some? ==> b.pending.value !in emojis)
  }

  lemma ReadHeld(p: string, x: string, b: Mode, emojis: Emojis)
    requires Harmless(b, emojis) && ':' !in p && '<' !in p
    ensures Rewrite(":" + p + x, b, emojis) == Held(b) + Rewrite(x, b.(pending := Some(p)), emojis)
  {
    var s := ":" + p + x;
    RewriteCons(s, b, emojis);
    assert s[1..] == p + x;
    ReadText(p, x, b.(pending := Some("")), emojis);
    assert "" + p == p;
  }

  lemma {:induction false} ReadTag(t: string, x: string, m: Mode, emojis: Emojis)
    requires Valid(m) && m.tag.Some? && '<' !in t && '>' !in t
    ensures Rewrite(t + x, m, emojis) == t + Rewrite(x, m.(tag := Some(m.tag.value + t)), emojis)
    decreases |t|
  {
    if t == "" {
      assert t + x == x && m.tag.value + t == m.tag.value;
    } else {
      var next := m.(tag := Some(m.tag.value + [t[0]]));
      assert t[0] in t;
      RewriteCons(t + x, m, emojis);
      assert (t + x)[1..] == t[1..] + x;
      ReadTag(t[1..], x, next, emojis);
      Shift(m.tag.value, t);
      assert [t[0]] + t[1..] == t;
    }
  }

  ghost predicate NoBracket(s: string) {
    '<' !in s && '>' !in s
  }

  lemma {:induction false} NoBracketConcat(parts: seq<string>)
    requires forall i | 0 <= i < |parts| :: NoBracket(parts[i])
    ensures NoBracket(Concat(parts))
  {
    if parts != [] {
      NoBracketConcat(parts[1..]);
    }
  }

  lemma NoBracketAttribute(name: string, value: string)
    requires NoBracket(name) && NoBracket(value)
    ensures NoBracket(Attribute(name, value))
  {
  }

  lemma NoBracketShortcode(code: string)
    ensures NoBracket(":" + Encode(code) + ":")
  {
  }

  lemma ImageBodyHasNoBracket(code: string, url: string)
    ensures NoBracket(ImageBody(code, url))
    ensures |ImageBody(code, url)| > 1 && ImageBody(code, url)[0] == 'i'
  {
    NoBracketShortcode(code);
    NoBracketAttribute("draggable", "false");
    NoBracketAttribute("class", "emojione");
    NoBracketAttribute("alt", ":" + Encode(code) + ":");
    NoBracketAttribute("title", ":" + Encode(code) + ":");
    NoBracketAttribute("src", Encode(url));
    var parts := ["img",
                  Attribute("draggable", "false"),
                  Attribute("class", "emojione"),
                  Attribute("alt", ":" + Encode(code) + ":"),
                  Attribute("title", ":" + Encode(code) + ":"),
                  Attribute("src", Encode(url)),
                  " /"];
    NoBracketConcat(parts);
    assert Concat(parts) == parts[0] + Concat(parts[1..]);
  }

  /** Reading an image again passes over it as over any other tag. */
  lemma ReadImage(code: string, url: string, x: string, b: Mode, emojis: Emojis)
    requires Harmless(b, emojis) && b.depth == 0
    ensures Rewrite(Image(code, url) + x, b, emojis) == Held(b) + Image(code, url) + Rewrite(x, START, emojis)
  {
    ImageBodyHasNoBracket(code, url);
    ImageIsVisible(ImageBody(code, url));
    ReadPlainTag(ImageBody(code, url), x, b, emojis);
  }

  lemma ImageIsVisible(body: string)
    requires |body| > 1 && body[0] == 'i'
    ensures "<" + body + ">" != INVISIBLE
  {
    assert ("<" + body + ">")[1] == 'i' && INVISIBLE[1] == 's';
  }

  /** A tag that is not the one of an invisible span leaves the reader in plain text. */
  lemma ReadPlainTag(body: string, x: string, b: Mode, emojis: Emojis)
    requires Harmless(b, emojis) && b.depth == 0
    requires NoBracket(body) && "<" + body + ">" != INVISIBLE
    ensures Rewrite("<" + body + ">" + x, b, emojis) == Held(b) + ("<" + body + ">") + Rewrite(x, START, emojis)
  {
    ReadAnyTag(body, x, b, emojis);
  }

  lemma ReadTagStart(body: string, x: string, b: Mode, emojis: Emojis)
    requires Harmless(b, emojis)
    ensures Rewrite("<" + body + ">" + x, b, emojis) ==
      (Held(b) + "<") + Rewrite(body + (">" + x), Mode(Some("<"), None, b.depth), emojis)
  {
    var s := "<" + body + ">" + x;
    var rest := body + (">" + x);
    assert s == "<" + rest && s[1..] == rest;
    var next := Mode(Some("<"), None, b.depth);
    assert Step(b, '<', emojis) == (Text(Held(b) + "<"), next);
    RewriteCons(s, b, emojis);
  }

  lemma ReadTagRest(body: string, x: string, depth: nat, emojis: Emojis)
    requires NoBracket(body)
    ensures Rewrite(body + (">" + x), Mode(Some("<"), None, depth), emojis) ==
      body + (">" + Rewrite(x, Mode(None, None, DepthAfter(depth, "<" + body + ">")), emojis))
  {
    ReadTag(body, ">" + x, Mode(Some("<"), None, depth), emojis);
    ReadTagEnd("<" + body, x, depth, emojis);
  }

  /** A tag comes out as it is and changes the depth. */
  lemma ReadAnyTag(body: string, x: string, b: Mode, emojis: Emojis)
    requires Harmless(b, emojis) && NoBracket(body)
    ensures Rewrite("<" + body + ">" + x, b, emojis) ==
      Held(b) + ("<" + body + ">") + Rewrite(x, Mode(None, None, DepthAfter(b.depth, "<" + body + ">")), emojis)
  {
    ReadTagStart(body, x, b, emojis);
    ReadTagRest(body, x, b.depth, emojis);
    Bracketed(Held(b), body, Rewrite(x, Mode(None, None, DepthAfter(b.depth, "<" + body + ">")), emojis));
  }

  lemma ReadTagEnd(tag: string, x: string, depth: nat, emojis: Emojis)
    requires tag != ""
    ensures Rewrite(">" + x, Mode(Some(tag), None, depth), emojis) ==
      ">" + Rewrite(x, Mode(None, None, DepthAfter(depth, tag + ">")), emojis)
  {
    RewriteCons(">" + x, Mode(Some(tag), None, depth), emojis);
    assert (">" + x)[1..] == x;
  }

  lemma Bracketed(h: string, body: string, rest: string)
    ensures (h + "<") + (body + (">" + rest)) == h + ("<" + body + ">") + rest
  {
  }

  // ---- The rewriting in terms of whole stretches of visible HTML ----

  /** Text before the next colon or tag comes out as it is. */
  lemma {:induction false} TextIsKept(p: string, x: string, emojis: Emojis)
    requires ':' !in p && '<' !in p
    ensures Rewrite(p + x, START, emojis) == p + Rewrite(x, START, emojis)
    decreases |p|
  {
    if p == "" {
      assert p + x == x;
    } else {
      RewriteCons(p + x, START, emojis);
      assert p[0] in p && (p + x)[1..] == p[1..] + x;
      TextIsKept(p[1..], x, emojis);
      assert p == [p[0]] + p[1..];
    }
  }

  /** A known shortcode becomes its image.  At an unknown one the closing colon is read
      again, as it may open another. */
  lemma ShortcodeIsReplaced(code: string, x: string, emojis: Emojis)
    requires ':' !in code && '<' !in code
    ensures Rewrite(":" + code + (":" + x), START, emojis) ==
      if code in emojis then Image(code, emojis[code]) + Rewrite(x, START, emojis)
      else ":" + code + Rewrite(":" + x, START, emojis)
  {
    var m := START.(pending := Some(code));
    ReadHeld(code, ":" + x, START, emojis);
    RewriteCons(":" + x, m, emojis);
    RewriteCons(":" + x, START, emojis);
    assert (":" + x)[1..] == x;
    var rest := Rewrite(x, START.(pending := Some("")), emojis);
    assert "" + Rewrite(":" + x, m, emojis) == Rewrite(":" + x, m, emojis) && "" + rest == rest;
  }

  /** A tag comes out as it is, shortcodes in its attributes included. */
  lemma TagIsKept(body: string, x: string, emojis: Emojis)
    requires NoBracket(body) && "<" + body + ">" != INVISIBLE
    ensures Rewrite("<" + body + ">" + x, START, emojis) == "<" + body + ">" + Rewrite(x, START, emojis)
  {
    ReadPlainTag(body, x, START, emojis);
    assert "" + ("<" + body + ">") == "<" + body + ">";
  }

  lemma Joined(a: string, b: string, c: string)
    ensures (a + b) + c == a + (b + c)
  {
  }

  /** By its tags the HTML stays inside an invisible span until its end. */
  ghost predicate DeepAlong(l: Layout, p: string)
    requires Laid(l)
    decreases |p|
  {
    p == "" || (l.depth > 0 && DeepAlong(LayoutStep(l, p[0]), p[1..]))
  }

  /** Inside an invisible span a step emits source text, and only the end of a tag gets
      the reader out. */
  lemma DeepStep(m: Mode, c: char, emojis: Emojis)
    requires Valid(m) && m.depth > 0
    ensures var (token, next) := Step(m, c, emojis);
      && token.Text? && token.text + Held(next) == Held(m) + [c]
      && LayoutStep(Layout(m.tag, m.depth), c) == Layout(next.tag, next.depth)
      && (next.depth == 0 ==> next == START)
  {
  }

  /** Inside an invisible span HTML comes out as it is, but for a colon and what follows it
      that are still held back at its end. */
  lemma {:induction false} ReadDeep(p: string, x: string, m: Mode, emojis: Emojis) returns (out: string, next: Mode)
    requires Valid(m) && DeepAlong(Layout(m.tag, m.depth), p)
    ensures Valid(next) && Layout(next.tag, next.depth) == Walk(Layout(m.tag, m.depth), p)
    ensures Rewrite(p + x, m, emojis) == out + Rewrite(x, next, emojis)
    ensures out + Held(next) == Held(m) + p
    ensures p != "" && next.depth == 0 ==> next == START
    decreases |p|
  {
    out, next := "", m;
    if p == "" {
      assert p + x == x && "" + Rewrite(x, m, emojis) == Rewrite(x, m, emojis) && "" + Held(m) == Held(m) + p;
    } else {
      var (token, mid) := Step(m, p[0], emojis);
      DeepStep(m, p[0], emojis);
      RewriteCons(p + x, m, emojis);
      assert (p + x)[1..] == p[1..] + x;
      var rest;
      rest, next := ReadDeep(p[1..], x, mid, emojis);
      out := token.text + rest;
      Joined(token.text, rest, Rewrite(x, next, emojis));
      Joined(token.text, rest, Held(next));
      Joined(token.text, Held(mid), p[1..]);
      Shift(Held(m), p);
    }
  }

  /** Main result on invisible spans: one with any elements, shortcodes and loose brackets
      in it comes out as it is, and the reader is back in visible text after it.  `p` is
      what follows the opening tag up to where the depth first gets back to 0. */
  lemma InvisibleSpanIsKept(p: string, x: string, emojis: Emojis)
    requires DeepAlong(Layout(None, 1), p) && Walk(Layout(None, 1), p).depth == 0
    ensures Rewrite(INVISIBLE + (p + x), START, emojis) == INVISIBLE + (p + Rewrite(x, START, emojis))
  {
    var inside := Mode(None, None, 1);
    NoBracketAttribute("class", "invisible");
    ReadAnyTag(INVISIBLE_BODY, p + x, START, emojis);
    assert "" + INVISIBLE == INVISIBLE;
    var out, next := ReadDeep(p, x, inside, emojis);
    assert out + "" == out && "" + p == p;
  }

  lemma {:induction false} DeepConcat(l: Layout, a: string, b: string)
    requires Laid(l) && DeepAlong(l, a) && DeepAlong(Walk(l, a), b)
    ensures DeepAlong(l, a + b)
    decreases |a|
  {
    if a == "" {
      assert a + b == b;
    } else {
      assert (a + b)[1..] == a[1..] + b;
      DeepConcat(LayoutStep(l, a[0]), a[1..], b);
    }
  }

  lemma {:induction false} DeepText(l: Layout, p: string)
    requires l.tag.None? && l.depth > 0 && '<' !in p
    ensures DeepAlong(l, p)
    decreases |p|
  {
    if p != "" {
      assert p[0] in p;
      DeepText(l, p[1..]);
    }
  }

  lemma {:induction false} DeepTag(l: Layout, t: string)
    requires l.tag.Some? && Laid(l) && l.depth > 0 && NoBracket(t)
    ensures DeepAlong(l, t) && Walk(l, t) == Layout(Some(l.tag.value + t), l.depth)
    decreases |t|
  {
    if t == "" {
      assert l.tag.value + t == l.tag.value;
    } else {
      assert t[0] in t;
      DeepTag(Layout(Some(l.tag.value + [t[0]]), l.depth), t[1..]);
      Shift(l.tag.value, t);
    }
  }

  /** Text and a tag inside an invisible span keep to it, and change the depth. */
  lemma DeepElement(text: string, body: string, depth: nat)
    requires depth > 0 && '<' !in text && NoBracket(body)
    ensures var p := text + ("<" + (body + ">"));
      DeepAlong(Layout(None, depth), p) &&
      Walk(Layout(None, depth), p) == Layout(None, DepthAfter(depth, "<" + body + ">"))
  {
    var l := Layout(None, depth);
    var tag := "<" + (body + ">");
    DeepText(l, text);
    WalkText(l, text);
    WalkConcat(l, text, tag);
    var start := Layout(Some("<"), depth);
    assert tag[1..] == body + ">";
    DeepTag(start, body);
    WalkConcat(start, body, ">");
    var last := Layout(Some("<" + body), depth);
    assert ">"[1..] == "";
    assert Walk(last, ">") == LayoutStep(last, '>');
    DeepConcat(start, body, ">");
    DeepConcat(l, text, tag);
  }

  /** In particular one with an element in it. */
  lemma NestedSpanIsKept(before: string, body: string, within: string, after: string, x: string, emojis: Emojis)
    requires '<' !in before && '<' !in within && '<' !in after && NoBracket(body)
    requires DepthAfter(1, "<" + body + ">") == 2
    ensures var p := before + ("<" + (body + ">")) + (within + "</end>") + (after + "</span>");
      Rewrite(INVISIBLE + (p + x), START, emojis) == INVISIBLE + (p + Rewrite(x, START, emojis))
  {
    var l := Layout(None, 1);
    var first, second, third := before + ("<" + (body + ">")), within + "</end>", after + "</span>";
    assert "</end>" == "<" + ("/end" + ">") && "</span>" == "<" + ("/span" + ">");
    DeepElement(before, body, 1);
    DeepElement(within, "/end", 2);
    DeepElement(after, "/span", 1);
    DeepConcat(l, first, second);
    WalkConcat(l, first, second);
    DeepConcat(l, first + second, third);
    WalkConcat(l, first + second, third);
    InvisibleSpanIsKept(first + second + third, x, emojis);
  }

  /** Reading the output of `m` again, from `b`: `b` is `m` itself or, while `m` holds
      something back, where the second reader stood before the held-back colon. */
  ghost predicate Rereads(m: Mode, b: Mode, emojis: Emojis) {
    && Valid(m) && Valid(b)
    && if m.pending.None? then b == m else Harmless(b, emojis) && m.tag.None? && b.depth == m.depth
  }

  /** Where the second reader stands once it has read what one step has emitted. */
  function RereadFrom(m: Mode, c: char, b: Mode, emojis: Emojis): Mode
    requires Valid(m)
  {
    var (token, next) := Step(m, c, emojis);
    if m.pending.Some? && token.Text? && c == ':' then m
    else if next.pending.Some? then b
    else next
  }

  lemma RereadsOn(m: Mode, c: char, b: Mode, emojis: Emojis)
    requires Rereads(m, b, emojis)
    ensures Rereads(Step(m, c, emojis).1, RereadFrom(m, c, b, emojis), emojis)
  {
  }

  lemma RereadHeldColon(m: Mode, x: string, b: Mode, emojis: Emojis)
    requires Rereads(m, b, emojis) && m.pending.Some?
    ensures Rewrite(Held(m) + x, b, emojis) == Held(b) + Rewrite(x, m, emojis)
  {
    ReadHeld(m.pending.value, x, b, emojis);
  }

  lemma RereadHeldBracket(m: Mode, x: string, b: Mode, emojis: Emojis)
    requires Rereads(m, b, emojis) && m.pending.Some?
    ensures Rewrite(Held(m) + "<" + x, b, emojis) ==
      Held(b) + (Held(m) + "<") + Rewrite(x, Mode(Some("<"), None, m.depth), emojis)
  {
    ReadHeld(m.pending.value, "<" + x, b, emojis);
    assert Held(m) + "<" + x == Held(m) + ("<" + x);
    RewriteCons("<" + x, m, emojis);
    assert ("<" + x)[1..] == x;
  }

  lemma RereadPlain(m: Mode, c: char, x: string, emojis: Emojis)
    requires Valid(m) && m.pending.None? && (m.tag.Some? || c != ':')
    ensures Rewrite([c] + x, m, emojis) == [c] + Rewrite(x, Step(m, c, emojis).1, emojis)
    ensures Step(m, c, emojis).0 == Text([c])
  {
    RewriteCons([c] + x, m, emojis);
    assert ([c] + x)[1..] == x;
    assert "" + [c] == [c];
  }

  /** The rest of the output comes out unchanged after the step. */
  ghost predicate RestSame(m: Mode, c: char, x: string, b: Mode, emojis: Emojis)
    requires Valid(m)
  {
    var b' := RereadFrom(m, c, b, emojis);
    Valid(b') && Rewrite(x, b', emojis) == Held(b') + x
  }

  ghost predicate OutSame(m: Mode, c: char, x: string, b: Mode, emojis: Emojis)
    requires Valid(m) && Valid(b)
  {
    var out := RenderToken(Step(m, c, emojis).0, emojis);
    Rewrite(out + x, b, emojis) == Held(b) + (out + x)
  }

  lemma RereadImage(m: Mode, c: char, x: string, b: Mode, emojis: Emojis)
    requires Rereads(m, b, emojis) && RestSame(m, c, x, b, emojis) && Step(m, c, emojis).0.Emoji?
    ensures OutSame(m, c, x, b, emojis)
  {
    var code := m.pending.value;
    ReadImage(code, emojis[code], x, b, emojis);
    Regrouped(Held(b), Image(code, emojis[code]), x);
  }

  lemma Regrouped(h: string, out: string, x: string)
    ensures h + out + ("" + x) == h + (out + x)
  {
  }

  lemma RereadText(m: Mode, c: char, x: string, b: Mode, emojis: Emojis)
    requires Rereads(m, b, emojis) && RestSame(m, c, x, b, emojis)
    requires m.pending.Some? && (c == ':' || c == '<') && Step(m, c, emojis).0.Text?
    ensures OutSame(m, c, x, b, emojis)
  {
    if c == ':' {
      RereadHeldColon(m, x, b, emojis);
    } else {
      RereadHeldBracket(m, x, b, emojis);
      Regrouped(Held(b), Held(m) + "<", x);
    }
  }

  /** If the rest of the output comes out unchanged, so does what one step emits before it. */
  lemma RereadStep(m: Mode, c: char, x: string, b: Mode, emojis: Emojis)
    requires Rereads(m, b, emojis) && RestSame(m, c, x, b, emojis)
    ensures OutSame(m, c, x, b, emojis)
  {
    var (token, next) := Step(m, c, emojis);
    if token.Emoji? {
      RereadImage(m, c, x, b, emojis);
    } else if m.pending.Some? && (c == ':' || c == '<') {
      RereadText(m, c, x, b, emojis);
    } else if next.pending.Some? {
      assert "" + x == x;
    } else {
      RereadPlain(m, c, x, emojis);
      assert "" + x == x && "" + ([c] + x) == [c] + x;
    }
  }

  lemma {:induction false} RereadIsSame(s: string, m: Mode, b: Mode, emojis: Emojis)
    requires Rereads(m, b, emojis)
    ensures var out := Rewrite(s, m, emojis); Rewrite(out, b, emojis) == Held(b) + out
    decreases |s|
  {
    if s == "" {
      RewriteEnd(m, emojis);
      RewriteEnd(b, emojis);
      if m.pending.Some? {
        RereadHeldColon(m, "", b, emojis);
        RewriteEnd(m, emojis);
        assert Held(m) + "" == Held(m);
      }
    } else {
      var next := Step(m, s[0], emojis).1;
      var b' := RereadFrom(m, s[0], b, emojis);
      RewriteCons(s, m, emojis);
      RereadsOn(m, s[0], b, emojis);
      RereadIsSame(s[1..], next, b', emojis);
      RereadStep(m, s[0], Rewrite(s[1..], next, emojis), b, emojis);
    }
  }

  /** Main result: rewriting is idempotent; no shortcode that could be replaced is left
      and no image is touched again. */
  lemma SecondPassChangesNothing(s: string, emojis: Emojis)
    ensures var once := Rewrite(s, START, emojis); Rewrite(once, START, emojis) == once
  {
    RereadIsSame(s, START, START, emojis);
  }
}
