/**
 The message list of a session context: quoting of the peer card, escaping of values, the
 tag frame around them, the two provider forms, and readers that show what can be recovered
 from each.
 */
module ContextMessages {
  import opened Basics

  // ---------------------------------------------------------------------
  // str::replace for one character
  // ---------------------------------------------------------------------

  function Replace(s: string, c: char, with: string): string {
    if s == "" then "" else (if s[0] == c then with else [s[0]]) + Replace(s[1..], c, with)
  }

  lemma {:induction false} ReplaceConcat(s: string, t: string, c: char, with: string)
    ensures Replace(s + t, c, with) == Replace(s, c, with) + Replace(t, c, with)
  {
    if s == "" {
      assert s + t == t;
    } else {
      assert (s + t)[1..] == s[1..] + t;
      ReplaceConcat(s[1..], t, c, with);
    }
  }

  lemma {:induction false} ReplaceAbsent(s: string, c: char, with: string)
    requires c !in s
    ensures Replace(s, c, with) == s
  {
    if s != "" {
      ReplaceAbsent(s[1..], c, with);
      assert [s[0]] + s[1..] == s;
    }
  }

  // ---------------------------------------------------------------------
  // escape_tag_value
  // ---------------------------------------------------------------------

  /** Three whole-string replacements, skipped when there is nothing to replace. */
  function EscapeTagValue(value: string): string {
    if '&' in value || '<' in value || '>' in value then
      Replace(Replace(Replace(value, '&', "&amp;"), '<', "&lt;"), '>', "&gt;")
    else value
  }

  function EscapeChar(c: char): string {
    if c == '&' then "&amp;" else if c == '<' then "&lt;" else if c == '>' then "&gt;" else [c]
  }

  /** The same in one pass over the characters. */
  function Escaped(value: string): string {
    if value == "" then "" else EscapeChar(value[0]) + Escaped(value[1..])
  }

  lemma ReplaceOne(c: char, d: char, with: string)
    ensures Replace([c], d, with) == if c == d then with else [c]
  {
  }

  lemma ThreeReplacements(c: char)
    ensures Replace(Replace(Replace([c], '&', "&amp;"), '<', "&lt;"), '>', "&gt;") == EscapeChar(c)
  {
    ReplaceOne(c, '&', "&amp;");
    if c == '&' {
      ReplaceAbsent("&amp;", '<', "&lt;");
      ReplaceAbsent("&amp;", '>', "&gt;");
    } else {
      ReplaceOne(c, '<', "&lt;");
      if c == '<' {
        ReplaceAbsent("&lt;", '>', "&gt;");
      } else {
        ReplaceOne(c, '>', "&gt;");
      }
    }
  }

  lemma {:induction false} ReplacementsArePointwise(value: string)
    ensures Replace(Replace(Replace(value, '&', "&amp;"), '<', "&lt;"), '>', "&gt;") == Escaped(value)
  {
    if value != "" {
      var c, rest := [value[0]], value[1..];
      assert value == c + rest;
      ReplacementsArePointwise(rest);
      ThreeReplacements(value[0]);
      ReplaceConcat(c, rest, '&', "&amp;");
      ReplaceConcat(Replace(c, '&', "&amp;"), Replace(rest, '&', "&amp;"), '<', "&lt;");
      ReplaceConcat(Replace(Replace(c, '&', "&amp;"), '<', "&lt;"),
                    Replace(Replace(rest, '&', "&amp;"), '<', "&lt;"), '>', "&gt;");
    }
  }

  lemma {:induction false} NothingToEscape(value: string)
    requires '&' !in value && '<' !in value && '>' !in value
    ensures Escaped(value) == value
  {
    if value != "" {
      NothingToEscape(value[1..]);
      assert [value[0]] + value[1..] == value;
    }
  }

  /** Successive replacements, fast path included, equal the one-pass substitution. */
  lemma EscapeIsPointwise(value: string)
    ensures EscapeTagValue(value) == Escaped(value)
  {
    if '&' in value || '<' in value || '>' in value {
      ReplacementsArePointwise(value);
    } else {
      NothingToEscape(value);
    }
  }

  lemma {:induction false} NoAngleBrackets(value: string)
    ensures '<' !in Escaped(value) && '>' !in Escaped(value)
  {
    if value != "" {
      NoAngleBrackets(value[1..]);
      assert '<' !in EscapeChar(value[0]) && '>' !in EscapeChar(value[0]);
    }
  }

  /** Reads the three entities back; any other text stands for itself. */
  function Unescaped(s: string): string
    decreases |s|
  {
    if s == "" then ""
    else if s[0] == '&' && "&amp;" <= s then "&" + Unescaped(s[5..])
    else if s[0] == '&' && "&lt;" <= s then "<" + Unescaped(s[4..])
    else if s[0] == '&' && "&gt;" <= s then ">" + Unescaped(s[4..])
    else [s[0]] + Unescaped(s[1..])
  }

  lemma UnescapeFront(c: char, rest: string)
    ensures Unescaped(EscapeChar(c) + rest) == [c] + Unescaped(rest)
  {
    var s := EscapeChar(c) + rest;
    if c == '&' {
      assert s[..5] == "&amp;" && s[5..] == rest;
    } else if c == '<' {
      assert s[..4] == "&lt;" && s[4..] == rest && s[1] == 'l';
    } else if c == '>' {
      assert s[..4] == "&gt;" && s[4..] == rest && s[1] == 'g';
    } else {
      assert s[0] == c && s[1..] == rest;
    }
  }

  /** Escaping loses nothing. */
  lemma {:induction false} UnescapeEscape(value: string)
    ensures Unescaped(Escaped(value)) == value
  {
    if value != "" {
      UnescapeFront(value[0], Escaped(value[1..]));
      UnescapeEscape(value[1..]);
      assert [value[0]] + value[1..] == value;
    }
  }

  // ---------------------------------------------------------------------
  // The tag frame
  // ---------------------------------------------------------------------

  function Wrap(tag: string, escaped: string): string { "<" + tag + ">" + escaped + "</" + tag + ">" }

  function Frame(tag: string, value: string): string { Wrap(tag, EscapeTagValue(value)) }

  function UpTo(s: string, c: char): string {
    if s == "" || s[0] == c then "" else [s[0]] + UpTo(s[1..], c)
  }

  /** Reads a frame: the tag up to the first `>`, the value up to the next `<`, then the closing tag and no more. */
  function ParseFrame(s: string): Option<(string, string)> {
    if s == "" || s[0] != '<' then None
    else
      var tag := UpTo(s[1..], '>');
      if |tag| + 2 > |s| then None
      else
        var body := s[|tag| + 2..];
        var value := UpTo(body, '<');
        UpToIsPrefix(body, '<');
        if body[|value|..] == "</" + tag + ">" then Some((tag, Unescaped(value))) else None
  }

  lemma {:induction false} UpToIsPrefix(s: string, c: char)
    ensures |UpTo(s, c)| <= |s|
  {
    if s != "" && s[0] != c {
      UpToIsPrefix(s[1..], c);
    }
  }

  lemma {:induction false} UpToFound(a: string, c: char, rest: string)
    requires c !in a
    ensures UpTo(a + [c] + rest, c) == a
  {
    var s := a + [c] + rest;
    if a != "" {
      assert s[1..] == a[1..] + [c] + rest;
      UpToFound(a[1..], c, rest);
    }
  }

  lemma ParseFrameOf(tag: string, escaped: string, s: string)
    requires '>' !in tag && '<' !in escaped && s == "<" + tag + ">" + escaped + "</" + tag + ">"
    ensures ParseFrame(s) == Some((tag, Unescaped(escaped)))
  {
    var closing := "/" + tag + ">";
    var body := escaped + ['<'] + closing;
    assert "</" + tag + ">" == ['<'] + closing;
    assert s[0] == '<' && s[1..] == tag + ['>'] + body;
    UpToFound(tag, '>', body);
    assert s[|tag| + 2..] == body;
    UpToFound(escaped, '<', closing);
    assert body[|escaped|..] == ['<'] + closing;
  }

  /** No value can close or forge the frame it is put in: tag and value are recovered. */
  lemma ParseFramed(tag: string, value: string)
    requires '>' !in tag
    ensures ParseFrame(Frame(tag, value)) == Some((tag, value))
  {
    EscapeIsPointwise(value);
    NoAngleBrackets(value);
    UnescapeEscape(value);
    ParseFrameOf(tag, EscapeTagValue(value), Frame(tag, value));
  }

  lemma FramesAreUnique(tag: string, value: string, tag': string, value': string)
    requires '>' !in tag && '>' !in tag' && Frame(tag, value) == Frame(tag', value')
    ensures tag == tag' && value == value'
  {
    ParseFramed(tag, value);
    ParseFramed(tag', value');
  }

  // ---------------------------------------------------------------------
  // format_peer_card
  // ---------------------------------------------------------------------

  /** One item: backslashes doubled first, then quotes escaped. */
  function Quote(item: string): string { "'" + Replace(Replace(item, '\\', "\\\\"), '\'', "\\'") + "'" }

  function Join(items: seq<string>): string {
    if items == [] then "" else if |items| == 1 then items[0] else items[0] + ", " + Join(items[1..])
  }

  function QuoteAll(card: seq<string>): seq<string> {
    if card == [] then [] else [Quote(card[0])] + QuoteAll(card[1..])
  }

  function FormatPeerCard(card: seq<string>): string { "[" + Join(QuoteAll(card)) + "]" }

  function QuoteChar(c: char): string {
    if c == '\\' then "\\\\" else if c == '\'' then "\\'" else [c]
  }

  function Quoted(item: string): string {
    if item == "" then "" else QuoteChar(item[0]) + Quoted(item[1..])
  }

  lemma {:induction false} QuoteIsPointwise(item: string)
    ensures Replace(Replace(item, '\\', "\\\\"), '\'', "\\'") == Quoted(item)
  {
    if item != "" {
      var c, rest := [item[0]], item[1..];
      assert item == c + rest;
      QuoteIsPointwise(rest);
      ReplaceConcat(c, rest, '\\', "\\\\");
      ReplaceConcat(Replace(c, '\\', "\\\\"), Replace(rest, '\\', "\\\\"), '\'', "\\'");
      QuoteOne(item[0]);
    }
  }

  lemma QuoteOne(c: char)
    ensures Replace(Replace([c], '\\', "\\\\"), '\'', "\\'") == QuoteChar(c)
  {
    assert Replace([c], '\\', "\\\\") == if c == '\\' then "\\\\" else [c];
    ReplaceAbsent("\\\\", '\'', "\\'");
  }

  /** The rest of an item, its opening quote read: the item and what follows the closing quote. */
  function ParseItem(s: string): Option<(string, string)>
    decreases |s|
  {
    if s == "" then None
    else if s[0] == '\'' then Some(("", s[1..]))
    else if s[0] == '\\' then
      if |s| < 2 then None
      else
        match ParseItem(s[2..])
        case None => None
        case Some((item, rest)) => Some(([s[1]] + item, rest))
    else
      match ParseItem(s[1..])
      case None => None
      case Some((item, rest)) => Some(([s[0]] + item, rest))
  }

  lemma ParseChar(c: char, s: string)
    requires ParseItem(s).Some?
    ensures ParseItem(QuoteChar(c) + s) == Some(([c] + ParseItem(s).value.0, ParseItem(s).value.1))
  {
  }

  lemma {:induction false} ParseQuoted(item: string, rest: string)
    ensures ParseItem(Quoted(item) + ("'" + rest)) == Some((item, rest))
  {
    if item == "" {
      assert Quoted(item) + ("'" + rest) == "'" + rest && ("'" + rest)[1..] == rest;
    } else {
      ParseQuoted(item[1..], rest);
      Associate(QuoteChar(item[0]), Quoted(item[1..]), "'" + rest);
      ParseChar(item[0], Quoted(item[1..]) + ("'" + rest));
      assert [item[0]] + item[1..] == item;
    }
  }

  lemma {:induction false} ParseItemShorter(s: string)
    ensures ParseItem(s).Some? ==> |ParseItem(s).value.1| < |s|
    decreases |s|
  {
    if s != "" && s[0] != '\'' {
      if s[0] != '\\' {
        ParseItemShorter(s[1..]);
      } else if |s| >= 2 {
        ParseItemShorter(s[2..]);
      }
    }
  }

  /** Quoted items separated by `, ` up to the closing bracket. */
  function ParseItems(s: string): Option<seq<string>>
    decreases |s|
  {
    if s == "" || s[0] != '\'' then None
    else
      ParseItemShorter(s[1..]);
      match ParseItem(s[1..])
      case None => None
      case Some((item, rest)) =>
        if rest == "]" then Some([item])
        else if !(", " <= rest) then None
        else
          match ParseItems(rest[2..])
          case None => None
          case Some(items) => Some([item] + items)
  }

  function ParseCard(s: string): Option<seq<string>> {
    if s == "[]" then Some([]) else if s == "" || s[0] != '[' then None else ParseItems(s[1..])
  }

  /** One item at the front of a list of items. */
  lemma ParseFirst(item: string, rest: string)
    ensures var s := Quote(item) + rest;
            s != "" && s[0] == '\'' && ParseItem(s[1..]) == Some((item, rest))
  {
    var s := Quote(item) + rest;
    QuoteIsPointwise(item);
    assert s[1..] == Quoted(item) + ("'" + rest);
    ParseQuoted(item, rest);
  }

  lemma {:induction false} ParseJoined(card: seq<string>)
    requires card != []
    ensures ParseItems(Join(QuoteAll(card)) + "]") == Some(card)
  {
    var quoted := QuoteAll(card);
    if |card| == 1 {
      assert quoted == [Quote(card[0])] && card == [card[0]];
      ParseFirst(card[0], "]");
    } else {
      var later := Join(QuoteAll(card[1..])) + "]";
      assert quoted[1..] == QuoteAll(card[1..]) && |quoted| > 1;
      assert Join(quoted) + "]" == Quote(card[0]) + (", " + later);
      ParseFirst(card[0], ", " + later);
      assert (", " + later)[..2] == ", " && (", " + later)[2..] == later;
      assert ", " + later != "]";
      ParseJoined(card[1..]);
      assert [card[0]] + card[1..] == card;
    }
  }

  /** Every card is recovered, whatever its items contain: quotes, backslashes at the end, separators. */
  lemma ParseFormatted(card: seq<string>)
    ensures ParseCard(FormatPeerCard(card)) == Some(card)
  {
    var s := FormatPeerCard(card);
    if card == [] {
      assert s == "[]";
    } else {
      assert s[1..] == Join(QuoteAll(card)) + "]";
      ParseJoined(card);
      assert s[1] == '\'' by { JoinStartsWithQuote(card); }
    }
  }

  lemma JoinStartsWithQuote(card: seq<string>)
    requires card != []
    ensures Join(QuoteAll(card)) != "" && Join(QuoteAll(card))[0] == '\''
  {
  }

  // ---------------------------------------------------------------------
  // build_context_messages, build_messages, len, is_empty
  // ---------------------------------------------------------------------

  /** A stored message, and an entry of the list sent to a provider: one JSON object. */
  datatype Message = Message(peerId: string, content: string)
  datatype Entry = Entry(role: string, name: Option<string>, content: string)

  datatype SessionContext = SessionContext(
    representation: Option<string>, card: Option<seq<string>>, summary: Option<string>, messages: seq<Message>)
  {
    function Len(): nat { |messages| + One(summary) + One(representation) + One(card) }

    predicate IsEmpty() { messages == [] && summary.None? && representation.None? && card.None? }
  }

  const REPRESENTATION := "peer_representation"
  const CARD := "peer_card"
  const SUMMARY := "summary"

  const SYSTEM := "system"
  const USER := "user"
  const ASSISTANT := "assistant"

  function One<T>(o: Option<T>): nat { if o.Some? then 1 else 0 }

  function Rank(tag: string): nat {
    if tag == REPRESENTATION then 0 else if tag == CARD then 1 else if tag == SUMMARY then 2 else 3
  }

  predicate InOrder(msgs: seq<(string, string)>) {
    forall i, j :: 0 <= i < j < |msgs| ==> Rank(msgs[i].0) < Rank(msgs[j].0) < 3
  }

  lemma TagsAreDistinct()
    ensures REPRESENTATION != CARD && CARD != SUMMARY && REPRESENTATION != SUMMARY
    ensures '>' !in REPRESENTATION && '>' !in CARD && '>' !in SUMMARY
  {
  }

  lemma RolesAreDistinct()
    ensures SYSTEM != USER && SYSTEM != ASSISTANT && USER != ASSISTANT
  {
  }

  function Formatted(card: Option<seq<string>>): Option<string> {
    if card.Some? then Some(FormatPeerCard(card.value)) else None
  }

  function Part(tag: string, value: Option<string>): seq<(string, string)> {
    if value.Some? then [(tag, value.value)] else []
  }

  /** The (tag, value) pairs of a context, in the order in which they are sent. */
  function Pairs(ctx: SessionContext): seq<(string, string)> {
    Part(REPRESENTATION, ctx.representation) + (Part(CARD, Formatted(ctx.card)) + Part(SUMMARY, ctx.summary))
  }

  /** Each part that is present, once, representation before card before summary, and nothing else. */
  lemma PartsInOrder(ctx: SessionContext)
    ensures |Pairs(ctx)| == One(ctx.representation) + One(ctx.card) + One(ctx.summary)
    ensures forall value :: ("peer_representation", value) in Pairs(ctx) <==> ctx.representation == Some(value)
    ensures forall value :: ("peer_card", value) in Pairs(ctx) <==> Formatted(ctx.card) == Some(value)
    ensures forall value :: ("summary", value) in Pairs(ctx) <==> ctx.summary == Some(value)
    ensures InOrder(Pairs(ctx))
  {
    TagsAreDistinct();
    PartsOf(ctx.representation, Formatted(ctx.card), ctx.summary);
  }

  lemma PartsOf(r: Option<string>, c: Option<string>, s: Option<string>)
    ensures var all := Part(REPRESENTATION, r) + (Part(CARD, c) + Part(SUMMARY, s));
            && (forall p :: p in all <==> p in Part(REPRESENTATION, r) || p in Part(CARD, c) || p in Part(SUMMARY, s))
            && InOrder(all)
  {
    TagsAreDistinct();
  }

  method BuildContextMessages(ctx: SessionContext) returns (msgs: seq<(string, string)>)
    ensures msgs == Pairs(ctx)
  {
    msgs := [];
    if ctx.representation.Some? {
      msgs := msgs + [(REPRESENTATION, ctx.representation.value)];
    }
    if ctx.card.Some? {
      msgs := msgs + [(CARD, FormatPeerCard(ctx.card.value))];
    }
    if ctx.summary.Some? {
      msgs := msgs + [(SUMMARY, ctx.summary.value)];
    }
  }

  function Framed(role: string, pair: (string, string)): Entry { Entry(role, None, Frame(pair.0, pair.1)) }

  function FrameAll(role: string, pairs: seq<(string, string)>): seq<Entry> {
    if pairs == [] then [] else [Framed(role, pairs[0])] + FrameAll(role, pairs[1..])
  }

  function RenderAll(messages: seq<Message>, assistant: string, render: (Message, bool) -> Entry): seq<Entry> {
    if messages == [] then []
    else [render(messages[0], messages[0].peerId == assistant)] + RenderAll(messages[1..], assistant, render)
  }

  function ListOf(ctx: SessionContext, role: string, assistant: string, render: (Message, bool) -> Entry): seq<Entry> {
    FrameAll(role, Pairs(ctx)) + RenderAll(ctx.messages, assistant, render)
  }

  lemma {:induction false} FrameAllConcat(role: string, a: seq<(string, string)>, b: seq<(string, string)>)
    ensures FrameAll(role, a + b) == FrameAll(role, a) + FrameAll(role, b)
  {
    if a == [] {
      assert a + b == b;
    } else {
      assert (a + b)[1..] == a[1..] + b;
      FrameAllConcat(role, a[1..], b);
    }
  }

  lemma FrameNext(role: string, pairs: seq<(string, string)>, i: nat)
    requires i < |pairs|
    ensures FrameAll(role, pairs[..i + 1]) == FrameAll(role, pairs[..i]) + [Framed(role, pairs[i])]
  {
    FrameAllConcat(role, pairs[..i], [pairs[i]]);
    assert pairs[..i + 1] == pairs[..i] + [pairs[i]];
    assert FrameAll(role, [pairs[i]]) == [Framed(role, pairs[i])] + FrameAll(role, []);
  }

  lemma {:induction false} RenderNext(messages: seq<Message>, assistant: string, render: (Message, bool) -> Entry, i: nat)
    requires i < |messages|
    ensures RenderAll(messages[..i + 1], assistant, render) ==
            RenderAll(messages[..i], assistant, render) + [render(messages[i], messages[i].peerId == assistant)]
  {
    if i > 0 {
      RenderNext(messages[1..], assistant, render, i - 1);
      assert messages[..i + 1][1..] == messages[1..][..i] && messages[..i][1..] == messages[1..][..i - 1];
    }
  }

  /** `build_messages`: the framed context in the given role, then the messages in order as the provider wants them. */
  method BuildMessages(ctx: SessionContext, role: string, assistant: string, render: (Message, bool) -> Entry)
    returns (result: seq<Entry>)
    ensures result == ListOf(ctx, role, assistant, render)
    ensures |result| == ctx.Len()
    ensures result == [] <==> ctx.IsEmpty()
  {
    result := [];
    var pairs := BuildContextMessages(ctx);
    for i := 0 to |pairs|
      invariant result == FrameAll(role, pairs[..i])
    {
      FrameNext(role, pairs, i);
      var (tag, value) := pairs[i];
      var escaped := EscapeTagValue(value);
      result := result + [Entry(role, None, Wrap(tag, escaped))];
    }
    assert pairs[..|pairs|] == pairs;
    for i := 0 to |ctx.messages|
      invariant result == FrameAll(role, pairs) + RenderAll(ctx.messages[..i], assistant, render)
    {
      RenderNext(ctx.messages, assistant, render, i);
      var message := ctx.messages[i];
      var isAssistant := message.peerId == assistant;
      result := result + [render(message, isAssistant)];
    }
    assert ctx.messages[..|ctx.messages|] == ctx.messages;
    ListLength(ctx, role, assistant, render);
  }

  lemma ListLength(ctx: SessionContext, role: string, assistant: string, render: (Message, bool) -> Entry)
    ensures |ListOf(ctx, role, assistant, render)| == ctx.Len()
    ensures ListOf(ctx, role, assistant, render) == [] <==> ctx.IsEmpty()
  {
    FrameAllLength(role, Pairs(ctx));
    RenderAllLength(ctx.messages, assistant, render);
  }

  lemma {:induction false} FrameAllLength(role: string, pairs: seq<(string, string)>)
    ensures |FrameAll(role, pairs)| == |pairs|
  {
    if pairs != [] {
      FrameAllLength(role, pairs[1..]);
    }
  }

  lemma {:induction false} RenderAllLength(messages: seq<Message>, assistant: string, render: (Message, bool) -> Entry)
    ensures |RenderAll(messages, assistant, render)| == |messages|
  {
    if messages != [] {
      RenderAllLength(messages[1..], assistant, render);
    }
  }

  // ---------------------------------------------------------------------
  // to_openai, to_anthropic
  // ---------------------------------------------------------------------

  function RenderOpenAi(message: Message, isAssistant: bool): Entry {
    Entry(if isAssistant then ASSISTANT else USER, Some(message.peerId), message.content)
  }

  function RenderAnthropic(message: Message, isAssistant: bool): Entry {
    if isAssistant then Entry(ASSISTANT, None, message.content)
    else Entry(USER, None, message.peerId + ": " + message.content)
  }

  function OpenAi(ctx: SessionContext, assistant: string): seq<Entry> {
    ListOf(ctx, SYSTEM, assistant, RenderOpenAi)
  }

  function Anthropic(ctx: SessionContext, assistant: string): seq<Entry> {
    ListOf(ctx, USER, assistant, RenderAnthropic)
  }

  // ---------------------------------------------------------------------
  // Reading a message list back
  // ---------------------------------------------------------------------

  /** The value of an entry that `build_messages` can have made for the tag in the role. */
  function ValueOf(e: Entry, role: string, tag: string): Option<string> {
    match ParseFrame(e.content)
    case None => None
    case Some((t, value)) =>
      if e.role == role && t == tag && Frame(tag, value) == e.content then Some(value) else None
  }

  function CardOf(e: Entry, role: string): Option<seq<string>> {
    match ValueOf(e, role, CARD)
    case None => None
    case Some(value) =>
      if ParseCard(value).Some? && FormatPeerCard(ParseCard(value).value) == value then ParseCard(value) else None
  }

  lemma ValueOfMeaning(e: Entry, role: string, tag: string, value: string)
    requires '>' !in tag
    ensures ValueOf(e, role, tag) == Some(value) <==> e.role == role && e.content == Frame(tag, value)
  {
    ParseFramed(tag, value);
  }

  lemma CardOfMeaning(e: Entry, role: string, card: seq<string>)
    ensures CardOf(e, role) == Some(card) <==> e.role == role && e.content == Frame(CARD, FormatPeerCard(card))
  {
    TagsAreDistinct();
    ValueOfMeaning(e, role, CARD, FormatPeerCard(card));
    ParseFormatted(card);
  }

  datatype Reading = Reading(
    representation: Option<string>, card: Option<seq<string>>, summary: Option<string>, rest: seq<Entry>)
  {
    predicate Parts(ctx: SessionContext) {
      representation == ctx.representation && card == ctx.card && summary == ctx.summary
    }
  }

  /** A reader that knows only the context role: each part is taken if the next entry can be one, the rest is left. */
  function ReadContext(list: seq<Entry>, role: string): Reading {
    var representation := if list == [] then None else ValueOf(list[0], role, REPRESENTATION);
    var a := list[One(representation)..];
    var card := if a == [] then None else CardOf(a[0], role);
    var b := a[One(card)..];
    var summary := if b == [] then None else ValueOf(b[0], role, SUMMARY);
    Reading(representation, card, summary, b[One(summary)..])
  }

  /** The entry could be the next part of the context: a part that no present part comes after. */
  predicate CouldBePart(ctx: SessionContext, e: Entry, role: string) {
    ctx.summary.None?
    && (|| ValueOf(e, role, SUMMARY).Some?
        || (ctx.card.None? && CardOf(e, role).Some?)
        || (ctx.card.None? && ctx.representation.None? && ValueOf(e, role, REPRESENTATION).Some?))
  }

  /** The first message, rendered, looks like a part of the context. */
  predicate Poses(ctx: SessionContext, role: string, assistant: string, render: (Message, bool) -> Entry) {
    ctx.messages != [] && CouldBePart(ctx, render(ctx.messages[0], ctx.messages[0].peerId == assistant), role)
  }

  /** The framed parts that are present, in front of `tail`. */
  function Onto(role: string, tag: string, value: Option<string>, tail: seq<Entry>): seq<Entry> {
    if value.Some? then [Framed(role, (tag, value.value))] + tail else tail
  }

  lemma FramePart(role: string, tag: string, value: Option<string>, pairs: seq<(string, string)>, tail: seq<Entry>)
    ensures FrameAll(role, Part(tag, value) + pairs) + tail == Onto(role, tag, value, FrameAll(role, pairs) + tail)
  {
    var all := Part(tag, value) + pairs;
    if value.Some? {
      assert all[0] == (tag, value.value) && all[1..] == pairs;
      Associate([Framed(role, all[0])], FrameAll(role, pairs), tail);
    } else {
      assert all == pairs;
    }
  }

  lemma FrameAllIsOnto(ctx: SessionContext, role: string, tail: seq<Entry>)
    ensures FrameAll(role, Pairs(ctx)) + tail ==
            Onto(role, REPRESENTATION, ctx.representation,
                 Onto(role, CARD, Formatted(ctx.card), Onto(role, SUMMARY, ctx.summary, tail)))
  {
    FrameThree(role, REPRESENTATION, ctx.representation, CARD, Formatted(ctx.card), SUMMARY, ctx.summary, tail);
  }

  lemma FrameThree(role: string, p: string, v: Option<string>, p': string, v': Option<string>,
                   p'': string, v'': Option<string>, tail: seq<Entry>)
    ensures FrameAll(role, Part(p, v) + (Part(p', v') + Part(p'', v''))) + tail ==
            Onto(role, p, v, Onto(role, p', v', Onto(role, p'', v'', tail)))
  {
    var last := Part(p'', v'');
    FramePart(role, p, v, Part(p', v') + last, tail);
    FramePart(role, p', v', last, tail);
    FramePart(role, p'', v'', [], tail);
    assert last + [] == last && FrameAll(role, []) + tail == tail;
  }

  /** A frame is the value of its own tag and of no other. */
  lemma ValueOfFramed(role: string, tag: string, value: string, asked: string)
    requires '>' !in tag && '>' !in asked
    ensures ValueOf(Framed(role, (tag, value)), role, asked) == if asked == tag then Some(value) else None
  {
    var e := Framed(role, (tag, value));
    ParseFramed(tag, value);
    ValueOfMeaning(e, role, tag, value);
  }

  lemma CardOfFramed(role: string, card: seq<string>)
    ensures CardOf(Framed(role, (CARD, FormatPeerCard(card))), role) == Some(card)
  {
    CardOfMeaning(Framed(role, (CARD, FormatPeerCard(card))), role, card);
  }

  /**
   The reader finds exactly the parts of the context if and only if the first message does
   not look like a further part; then it leaves exactly the rendered messages.
   */
  lemma ReadContextIff(ctx: SessionContext, role: string, assistant: string, render: (Message, bool) -> Entry)
    ensures var read := ReadContext(ListOf(ctx, role, assistant, render), role);
            && (read.Parts(ctx) <==> !Poses(ctx, role, assistant, render))
            && (read.Parts(ctx) ==> read.rest == RenderAll(ctx.messages, assistant, render))
  {
    var tail := RenderAll(ctx.messages, assistant, render);
    FrameAllIsOnto(ctx, role, tail);
    ReadParts(ctx, role, tail);
  }

  /** The value at the front of a list, if there is one. */
  function First(list: seq<Entry>, role: string, tag: string): Option<string> {
    if list == [] then None else ValueOf(list[0], role, tag)
  }

  /** A part that is present is taken, and hides what comes after it from other tags. */
  lemma FirstOnto(role: string, tag: string, value: Option<string>, tail: seq<Entry>, asked: string)
    requires '>' !in tag && '>' !in asked
    ensures First(Onto(role, tag, value, tail), role, asked) ==
            if value.None? then First(tail, role, asked) else if asked == tag then value else None
    ensures value.Some? ==> Onto(role, tag, value, tail)[1..] == tail
  {
    if value.Some? {
      ValueOfFramed(role, tag, value.value, asked);
    }
  }

  lemma ReadParts(ctx: SessionContext, role: string, tail: seq<Entry>)
    ensures var list := Onto(role, REPRESENTATION, ctx.representation,
                             Onto(role, CARD, Formatted(ctx.card), Onto(role, SUMMARY, ctx.summary, tail)));
            && (ReadContext(list, role).Parts(ctx) <==> tail == [] || !CouldBePart(ctx, tail[0], role))
            && (ReadContext(list, role).Parts(ctx) ==> ReadContext(list, role).rest == tail)
  {
    var b := Onto(role, SUMMARY, ctx.summary, tail);
    var a := Onto(role, CARD, Formatted(ctx.card), b);
    var list := Onto(role, REPRESENTATION, ctx.representation, a);
    TagsAreDistinct();
    FirstOnto(role, REPRESENTATION, ctx.representation, a, REPRESENTATION);
    FirstOnto(role, CARD, Formatted(ctx.card), b, REPRESENTATION);
    FirstOnto(role, CARD, Formatted(ctx.card), b, CARD);
    FirstOnto(role, SUMMARY, ctx.summary, tail, REPRESENTATION);
    FirstOnto(role, SUMMARY, ctx.summary, tail, CARD);
    FirstOnto(role, SUMMARY, ctx.summary, tail, SUMMARY);
    if ctx.card.Some? {
      CardOfFramed(role, ctx.card.value);
    }
    if tail != [] {
      OneTag(tail[0], role);
    }
  }

  /** No entry is read under two tags. */
  lemma OneTag(e: Entry, role: string)
    ensures ValueOf(e, role, REPRESENTATION).Some? ==> CardOf(e, role).None? && ValueOf(e, role, SUMMARY).None?
    ensures CardOf(e, role).Some? ==> ValueOf(e, role, SUMMARY).None?
  {
    TagsAreDistinct();
  }

  /** A context that swallows its first message as a part of itself. */
  function Absorb(ctx: SessionContext, e: Entry, role: string): SessionContext
    requires ctx.messages != []
  {
    var rest := ctx.messages[1..];
    if ValueOf(e, role, SUMMARY).Some? then ctx.(summary := ValueOf(e, role, SUMMARY), messages := rest)
    else if CardOf(e, role).Some? then ctx.(card := CardOf(e, role), messages := rest)
    else ctx.(representation := ValueOf(e, role, REPRESENTATION), messages := rest)
  }

  /** No reader can do better: when the first message poses, another context has the very same list. */
  lemma PosingIsAmbiguous(ctx: SessionContext, role: string, assistant: string, render: (Message, bool) -> Entry)
    requires Poses(ctx, role, assistant, render)
    requires render(ctx.messages[0], ctx.messages[0].peerId == assistant).name.None?
    ensures var twin := Absorb(ctx, render(ctx.messages[0], ctx.messages[0].peerId == assistant), role);
            && twin != ctx
            && ListOf(twin, role, assistant, render) == ListOf(ctx, role, assistant, render)
  {
    var e := render(ctx.messages[0], ctx.messages[0].peerId == assistant);
    var twin := Absorb(ctx, e, role);
    var rest := RenderAll(ctx.messages[1..], assistant, render);
    TagsAreDistinct();
    OneTag(e, role);
    FrameAllIsOnto(ctx, role, [e] + rest);
    FrameAllIsOnto(twin, role, rest);
    if ValueOf(e, role, SUMMARY).Some? {
      ValueOfMeaning(e, role, SUMMARY, ValueOf(e, role, SUMMARY).value);
      assert e == Framed(role, (SUMMARY, twin.summary.value));
    } else if CardOf(e, role).Some? {
      CardOfMeaning(e, role, CardOf(e, role).value);
      assert e == Framed(role, (CARD, FormatPeerCard(twin.card.value)));
    } else {
      ValueOfMeaning(e, role, REPRESENTATION, ValueOf(e, role, REPRESENTATION).value);
      assert e == Framed(role, (REPRESENTATION, twin.representation.value));
    }
  }

  // The OpenAI form.

  function ReadOpenAiMessages(list: seq<Entry>): seq<Message> {
    if list == [] then []
    else [Message(if list[0].name.Some? then list[0].name.value else "", list[0].content)]
         + ReadOpenAiMessages(list[1..])
  }

  function ReadOpenAi(list: seq<Entry>): SessionContext {
    var read := ReadContext(list, SYSTEM);
    SessionContext(read.representation, read.card, read.summary, ReadOpenAiMessages(read.rest))
  }

  lemma {:induction false} OpenAiMessages(messages: seq<Message>, assistant: string)
    ensures ReadOpenAiMessages(RenderAll(messages, assistant, RenderOpenAi)) == messages
  {
    if messages != [] {
      var list := RenderAll(messages, assistant, RenderOpenAi);
      assert list[1..] == RenderAll(messages[1..], assistant, RenderOpenAi);
      OpenAiMessages(messages[1..], assistant);
      assert messages == [messages[0]] + messages[1..];
    }
  }

  /** `to_openai` loses nothing: every context is recovered, card items, peer ids and contents included. */
  lemma OpenAiIsRecovered(ctx: SessionContext, assistant: string)
    ensures ReadOpenAi(OpenAi(ctx, assistant)) == ctx
  {
    RolesAreDistinct();
    assert !Poses(ctx, SYSTEM, assistant, RenderOpenAi);
    ReadContextIff(ctx, SYSTEM, assistant, RenderOpenAi);
    OpenAiMessages(ctx.messages, assistant);
  }

  // The Anthropic form.

  function SplitAtColon(s: string): (string, string) {
    if |s| < 2 then (s, "")
    else if s[0] == ':' && s[1] == ' ' then ("", s[2..])
    else var (front, back) := SplitAtColon(s[1..]); ([s[0]] + front, back)
  }

  predicate HasSeparator(s: string) { exists i :: 0 <= i < |s| - 1 && s[i] == ':' && s[i + 1] == ' ' }

  lemma {:induction false} SplitIff(peerId: string, content: string)
    ensures SplitAtColon(peerId + ": " + content) == (peerId, content) <==> !HasSeparator(peerId)
  {
    var s := peerId + ": " + content;
    if peerId == "" {
      assert s[2..] == content;
    } else {
      var rest := peerId[1..];
      assert s[1..] == rest + ": " + content;
      SplitIff(rest, content);
      SeparatorStep(peerId);
      assert peerId == [peerId[0]] + rest;
    }
  }

  lemma SeparatorStep(s: string)
    requires s != ""
    ensures HasSeparator(s) <==> (|s| > 1 && s[0] == ':' && s[1] == ' ') || HasSeparator(s[1..])
  {
    if HasSeparator(s[1..]) {
      var i :| 0 <= i < |s[1..]| - 1 && s[1..][i] == ':' && s[1..][i + 1] == ' ';
      assert s[i + 1] == ':' && s[i + 1 + 1] == ' ';
    }
    if HasSeparator(s) {
      var i :| 0 <= i < |s| - 1 && s[i] == ':' && s[i + 1] == ' ';
      if i > 0 {
        assert s[1..][i - 1] == ':' && s[1..][i - 1 + 1] == ' ';
      }
    }
  }

  function ReadAnthropicMessage(e: Entry, assistant: string): Message {
    if e.role == ASSISTANT then Message(assistant, e.content)
    else var (peerId, content) := SplitAtColon(e.content); Message(peerId, content)
  }

  function ReadAnthropicMessages(list: seq<Entry>, assistant: string): seq<Message> {
    if list == [] then [] else [ReadAnthropicMessage(list[0], assistant)] + ReadAnthropicMessages(list[1..], assistant)
  }

  function ReadAnthropic(list: seq<Entry>, assistant: string): SessionContext {
    var read := ReadContext(list, USER);
    SessionContext(read.representation, read.card, read.summary, ReadAnthropicMessages(read.rest, assistant))
  }

  /** The sender is the assistant, or its id can be told from the content behind it. */
  ghost predicate SenderIsClear(m: Message, assistant: string) { m.peerId == assistant || !HasSeparator(m.peerId) }

  lemma AnthropicMessage(m: Message, assistant: string)
    ensures ReadAnthropicMessage(RenderAnthropic(m, m.peerId == assistant), assistant) == m <==>
            SenderIsClear(m, assistant)
  {
    RolesAreDistinct();
    SplitIff(m.peerId, m.content);
  }

  ghost predicate SendersAreClear(messages: seq<Message>, assistant: string) {
    forall m :: m in messages ==> SenderIsClear(m, assistant)
  }

  lemma SendersFrom(messages: seq<Message>, assistant: string)
    requires messages != []
    ensures SendersAreClear(messages, assistant) <==>
            SenderIsClear(messages[0], assistant) && SendersAreClear(messages[1..], assistant)
  {
    assert messages == [messages[0]] + messages[1..];
  }

  lemma {:induction false} AnthropicMessages(messages: seq<Message>, assistant: string)
    ensures ReadAnthropicMessages(RenderAll(messages, assistant, RenderAnthropic), assistant) == messages <==>
            SendersAreClear(messages, assistant)
  {
    if messages != [] {
      var m, rest := messages[0], messages[1..];
      var head, tail := RenderAnthropic(m, m.peerId == assistant), RenderAll(rest, assistant, RenderAnthropic);
      assert RenderAll(messages, assistant, RenderAnthropic) == [head] + tail;
      ReadOneMore(head, tail, assistant);
      AnthropicMessage(m, assistant);
      AnthropicMessages(rest, assistant);
      SendersFrom(messages, assistant);
      SameHead(ReadAnthropicMessage(head, assistant), ReadAnthropicMessages(tail, assistant), m, rest);
      assert messages == [m] + rest;
    }
  }

  lemma ReadOneMore(head: Entry, tail: seq<Entry>, assistant: string)
    ensures ReadAnthropicMessages([head] + tail, assistant) ==
            [ReadAnthropicMessage(head, assistant)] + ReadAnthropicMessages(tail, assistant)
  {
    assert ([head] + tail)[1..] == tail;
  }

  lemma SameHead<T>(x: T, s: seq<T>, y: T, t: seq<T>)
    ensures [x] + s == [y] + t <==> x == y && s == t
  {
    assert ([x] + s)[0] == x && ([x] + s)[1..] == s && ([y] + t)[0] == y && ([y] + t)[1..] == t;
  }

  /**
   `to_anthropic` puts context and messages in one role. A context is recovered if and only if
   its first message does not pose as a further part and no sender but the assistant has the
   separator in its id.
   */
  lemma AnthropicIsRecoveredIff(ctx: SessionContext, assistant: string)
    ensures ReadAnthropic(Anthropic(ctx, assistant), assistant) == ctx <==>
            !Poses(ctx, USER, assistant, RenderAnthropic)
            && SendersAreClear(ctx.messages, assistant)
  {
    ReadContextIff(ctx, USER, assistant, RenderAnthropic);
    AnthropicMessages(ctx.messages, assistant);
  }

  /** What a caller can check first: a sender whose id does not start with `<` cannot pose. */
  lemma OrdinaryIdsDoNotPose(ctx: SessionContext, assistant: string)
    requires ctx.messages != []
             ==> ctx.messages[0].peerId == assistant || ctx.messages[0].peerId == "" || ctx.messages[0].peerId[0] != '<'
    ensures !Poses(ctx, USER, assistant, RenderAnthropic)
  {
    RolesAreDistinct();
  }

  lemma OneRendered(m: Message, assistant: string)
    ensures RenderAll([m], assistant, RenderAnthropic) == [RenderAnthropic(m, m.peerId == assistant)]
  {
  }

  /** A summary and a message that are sent as the same object. */
  lemma AnthropicIsAmbiguous(assistant: string)
    requires assistant != "<summary>a"
    ensures Anthropic(SessionContext(None, None, Some("a: "), []), assistant) ==
            Anthropic(SessionContext(None, None, None, [Message("<summary>a", "</summary>")]), assistant)
  {
    var one := SessionContext(None, None, Some("a: "), []);
    var other := SessionContext(None, None, None, [Message("<summary>a", "</summary>")]);
    NothingToEscape("a: ");
    EscapeIsPointwise("a: ");
    assert "<" + SUMMARY + ">" + "a: " + "</" + SUMMARY + ">" == "<summary>a" + ": " + "</summary>";
    FrameAllIsOnto(one, USER, []);
    var shared := Entry(USER, None, "<summary>a" + ": " + "</summary>");
    FrameAllIsOnto(other, USER, [shared]);
    assert Framed(USER, (SUMMARY, "a: ")) == shared;
    OneRendered(other.messages[0], assistant);
    assert RenderAll([], assistant, RenderAnthropic) == [];
  }

  // The roles, and what else the entries hold.

  lemma {:induction false} RenderedAt(messages: seq<Message>, assistant: string, render: (Message, bool) -> Entry, i: nat)
    requires i < |messages|
    ensures |RenderAll(messages, assistant, render)| == |messages|
    ensures RenderAll(messages, assistant, render)[i] == render(messages[i], messages[i].peerId == assistant)
  {
    RenderAllLength(messages, assistant, render);
    if i > 0 {
      RenderedAt(messages[1..], assistant, render, i - 1);
    }
  }

  lemma {:induction false} FramedAt(role: string, pairs: seq<(string, string)>, i: nat)
    requires i < |pairs|
    ensures |FrameAll(role, pairs)| == |pairs| && FrameAll(role, pairs)[i] == Framed(role, pairs[i])
  {
    FrameAllLength(role, pairs);
    if i > 0 {
      FramedAt(role, pairs[1..], i - 1);
    }
  }

  /** How many entries come before the messages. */
  function ContextLength(ctx: SessionContext): nat { ctx.Len() - |ctx.messages| }

  lemma PairsLength(ctx: SessionContext)
    ensures |Pairs(ctx)| == ContextLength(ctx)
  {
  }

  lemma EntryOf(pairs: seq<(string, string)>, messages: seq<Message>, role: string, assistant: string,
                render: (Message, bool) -> Entry, i: nat)
    requires i < |pairs| + |messages|
    ensures var list := FrameAll(role, pairs) + RenderAll(messages, assistant, render);
            && |list| == |pairs| + |messages|
            && if i < |pairs| then list[i].role == role && list[i].name == None
               else list[i] == render(messages[i - |pairs|], messages[i - |pairs|].peerId == assistant)
  {
    FrameAllLength(role, pairs);
    RenderAllLength(messages, assistant, render);
    if i < |pairs| {
      FramedAt(role, pairs, i);
    } else {
      RenderedAt(messages, assistant, render, i - |pairs|);
    }
  }

  /** Entry `i` of a list: in the context role and without a name before the messages, and a rendering after. */
  lemma {:induction false} EntryAt(ctx: SessionContext, role: string, assistant: string, render: (Message, bool) -> Entry,
                                   list: seq<Entry>, n: nat, i: nat)
    requires list == ListOf(ctx, role, assistant, render) && n == ContextLength(ctx) && i < n + |ctx.messages|
    ensures |list| == n + |ctx.messages|
    ensures if i < n then list[i].role == role && list[i].name == None
            else list[i] == render(ctx.messages[i - n], ctx.messages[i - n].peerId == assistant)
  {
    PairsLength(ctx);
    EntryOf(Pairs(ctx), ctx.messages, role, assistant, render, i);
  }

  /** Of `to_openai`: who said what, by role and by name. */
  lemma {:induction false} OpenAiRoles(ctx: SessionContext, assistant: string, list: seq<Entry>, n: nat, i: nat)
    requires list == OpenAi(ctx, assistant) && n == ContextLength(ctx) && i < n + |ctx.messages|
    ensures |list| == n + |ctx.messages|
    ensures list[i].role == "system" <==> i < n
    ensures list[i].role == "assistant" <==> i >= n && ctx.messages[i - n].peerId == assistant
    ensures list[i].role == "user" <==> i >= n && ctx.messages[i - n].peerId != assistant
    ensures i >= n ==>
            list[i].name == Some(ctx.messages[i - n].peerId) && list[i].content == ctx.messages[i - n].content
  {
    RolesAreDistinct();
    EntryAt(ctx, SYSTEM, assistant, RenderOpenAi, list, n, i);
  }

  /** Of `to_anthropic`: the assistant's messages as they are, the others behind the sender's id. */
  lemma {:induction false} AnthropicRoles(ctx: SessionContext, assistant: string, list: seq<Entry>, n: nat, i: nat)
    requires list == Anthropic(ctx, assistant) && n == ContextLength(ctx) && i < n + |ctx.messages|
    ensures |list| == n + |ctx.messages| && list[i].name == None
    ensures list[i].role == "assistant" <==> i >= n && ctx.messages[i - n].peerId == assistant
    ensures list[i].role == "user" <==> i < n || ctx.messages[i - n].peerId != assistant
    ensures i >= n ==>
            var m := ctx.messages[i - n];
            list[i].content == if m.peerId == assistant then m.content else m.peerId + ": " + m.content
  {
    RolesAreDistinct();
    EntryAt(ctx, USER, assistant, RenderAnthropic, list, n, i);
  }
}
