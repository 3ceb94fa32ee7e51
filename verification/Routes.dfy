/**
 Building request paths: identifiers are validated, percent-encoded and put into the
 template of a route. Texts are their UTF-8 bytes.
 */
module Routes {
  import opened Basics

  const SLASH: byte := 0x2F
  const PERCENT: byte := 0x25
  const DOT: byte := 0x2E

  // ---------------------------------------------------------------------
  // Percent-encoding
  // ---------------------------------------------------------------------

  /** The unreserved characters of section 2.3 of RFC 3986. */
  predicate IsUnreserved(b: byte) {
    0x41 <= b <= 0x5A || 0x61 <= b <= 0x7A || 0x30 <= b <= 0x39 || b == 0x2D || b == DOT || b == 0x5F || b == 0x7E
  }

  /** Upper-case hexadecimal digit. */
  function Hex(n: int): byte
    requires 0 <= n < 16
  {
    if n < 10 then 0x30 + n else 0x41 + n - 10
  }

  function EncodeByte(b: byte): Bytes {
    if IsUnreserved(b) then [b] else [PERCENT, Hex(b / 16), Hex(b % 16)]
  }

  function Encoded(s: Bytes): Bytes {
    if s == [] then [] else EncodeByte(s[0]) + Encoded(s[1..])
  }

  /** The loop of `encode`. */
  method Encode(s: Bytes) returns (encoded: Bytes)
    ensures encoded == Encoded(s)
  {
    encoded := [];
    for i := 0 to |s|
      invariant Encoded(s) == encoded + Encoded(s[i..])
    {
      var b := s[i];
      EncodeOneMore(encoded, s, i);
      if IsUnreserved(b) {
        encoded := encoded + [b];
      } else {
        encoded := encoded + [PERCENT, Hex(b / 16), Hex(b % 16)];
      }
    }
  }

  lemma EncodeOneMore(before: Bytes, s: Bytes, i: nat)
    requires i < |s|
    ensures before + Encoded(s[i..]) == before + EncodeByte(s[i]) + Encoded(s[i + 1..])
  {
  }

  function HexValue(b: byte): Option<int> {
    if 0x30 <= b <= 0x39 then Some(b - 0x30)
    else if 0x41 <= b <= 0x46 then Some(b - 0x41 + 10)
    else if 0x61 <= b <= 0x66 then Some(b - 0x61 + 10)
    else None
  }

  /** A percent-decoder (section 2.1 of RFC 3986): None if a `%` lacks its two digits. */
  function Decoded(s: Bytes): Option<Bytes>
    decreases |s|
  {
    if s == [] then Some([])
    else if s[0] != PERCENT then
      match Decoded(s[1..])
      case None => None
      case Some(rest) => Some([s[0]] + rest)
    else if |s| < 3 || HexValue(s[1]).None? || HexValue(s[2]).None? then None
    else
      match Decoded(s[3..])
      case None => None
      case Some(rest) => var b: byte := HexByte(s[1], s[2]); Some([b] + rest)
  }

  function HexByte(hi: byte, lo: byte): byte
    requires HexValue(hi).Some? && HexValue(lo).Some?
  {
    HexValue(hi).value * 16 + HexValue(lo).value
  }

  lemma {:induction false} DecodeEncode(s: Bytes)
    ensures Decoded(Encoded(s)) == Some(s)
  {
    if s != [] {
      DecodeEncode(s[1..]);
      var e := EncodeByte(s[0]) + Encoded(s[1..]);
      if IsUnreserved(s[0]) {
        assert e[1..] == Encoded(s[1..]);
      } else {
        assert e[3..] == Encoded(s[1..]);
        assert HexByte(e[1], e[2]) == s[0];
      }
      assert [s[0]] + s[1..] == s;
    }
  }

  lemma EncodedInjective(s: Bytes, t: Bytes)
    requires Encoded(s) == Encoded(t)
    ensures s == t
  {
    DecodeEncode(s);
    DecodeEncode(t);
  }

  /** An encoded id holds unreserved characters and `%XX` only, so no `/`. */
  lemma {:induction false} EncodedIsSegment(s: Bytes)
    ensures forall i :: 0 <= i < |Encoded(s)| ==> IsUnreserved(Encoded(s)[i]) || Encoded(s)[i] == PERCENT
    ensures SLASH !in Encoded(s)
    ensures s != [] ==> Encoded(s) != []
  {
    if s != [] {
      EncodedIsSegment(s[1..]);
      assert forall i :: 0 <= i < |EncodeByte(s[0])| ==> IsUnreserved(EncodeByte(s[0])[i]) || EncodeByte(s[0])[i] == PERCENT;
    }
  }

  // ---------------------------------------------------------------------
  // validate_id
  // ---------------------------------------------------------------------

  /** Length of the white-space character at the front of `s`, 0 if there is none (`char::is_whitespace`). */
  function WhiteSpaceAt(s: Bytes): (n: nat)
    ensures n <= |s|
  {
    if |s| >= 1 && (0x09 <= s[0] <= 0x0D || s[0] == 0x20) then 1
    else if |s| >= 2 && s[0] == 0xC2 && (s[1] == 0x85 || s[1] == 0xA0) then 2
    else if |s| >= 3 && s[..3] == [0xE1, 0x9A, 0x80] then 3
    else if |s| >= 3 && s[0] == 0xE2 && s[1] == 0x80 && (0x80 <= s[2] <= 0x8A || s[2] in {0xA8, 0xA9, 0xAF}) then 3
    else if |s| >= 3 && (s[..3] == [0xE2, 0x81, 0x9F] || s[..3] == [0xE3, 0x80, 0x80]) then 3
    else 0
  }

  /** `s.trim().is_empty()` */
  predicate IsBlank(s: Bytes)
    decreases |s|
  {
    s == [] || (WhiteSpaceAt(s) > 0 && IsBlank(s[WhiteSpaceAt(s)..]))
  }

  function LowerByte(b: byte): byte { if 0x41 <= b <= 0x5A then b + 0x20 else b }

  function ToAsciiLowercase(s: Bytes): (r: Bytes)
    ensures |r| == |s| && forall i :: 0 <= i < |s| ==> r[i] == LowerByte(s[i])
  {
    if s == [] then [] else [LowerByte(s[0])] + ToAsciiLowercase(s[1..])
  }

  /** `.`, `..` and their spellings with `%2e`, in lower case. */
  predicate IsDotSpelling(s: Bytes) {
    || s == [DOT] || s == [DOT, DOT]
    || s == [PERCENT, 0x32, 0x65] || s == [PERCENT, 0x32, 0x65, PERCENT, 0x32, 0x65]
    || s == [DOT, PERCENT, 0x32, 0x65] || s == [PERCENT, 0x32, 0x65, DOT]
  }

  predicate IsValidId(id: Bytes) { !IsBlank(id) && !IsDotSpelling(ToAsciiLowercase(id)) }

  /** The White_Space characters of the Unicode Character Database. */
  predicate IsWhiteSpace(c: CodePoint) {
    || 0x09 <= c <= 0x0D || c == 0x20 || c == 0x85 || c == 0xA0 || c == 0x1680
    || 0x2000 <= c <= 0x200A || c == 0x2028 || c == 0x2029 || c == 0x202F || c == 0x205F || c == 0x3000
  }

  type CodePoint = c: nat | c < 0x11_0000

  /** UTF-8 (section 3 of RFC 3629). */
  function Utf8Of(c: CodePoint): Bytes {
    if c < 0x80 then [c]
    else if c < 0x800 then [0xC0 + c / 0x40, 0x80 + c % 0x40]
    else if c < 0x1_0000 then [0xE0 + c / 0x1000, 0x80 + c / 0x40 % 0x40, 0x80 + c % 0x40]
    else [0xF0 + c / 0x4_0000, 0x80 + c / 0x1000 % 0x40, 0x80 + c / 0x40 % 0x40, 0x80 + c % 0x40]
  }

  function Utf8OfAll(text: seq<CodePoint>): Bytes {
    if text == [] then [] else Utf8Of(text[0]) + Utf8OfAll(text[1..])
  }

  lemma ThreeByteSpace(c: CodePoint, s: Bytes)
    requires 0x800 <= c < 0x1_0000 && Utf8Of(c) <= s
    ensures WhiteSpaceAt(s) == if IsWhiteSpace(c) then 3 else 0
  {
    assert s[..3] == Utf8Of(c);
    var a: int, b: int, d: int := s[0], s[1], s[2];
    assert c == 0x1000 * (a - 0xE0) + 0x40 * (b - 0x80) + (d - 0x80);
    assert s[..3] == [s[0], s[1], s[2]];
  }

  lemma WhiteSpaceAtFront(c: CodePoint, rest: Bytes)
    ensures WhiteSpaceAt(Utf8Of(c) + rest) == if IsWhiteSpace(c) then |Utf8Of(c)| else 0
  {
    var s := Utf8Of(c) + rest;
    if c < 0x80 {
      assert s[0] == c;
    } else if c < 0x800 {
      assert s[0] == 0xC0 + c / 0x40 && s[1] == 0x80 + c % 0x40;
    } else if c < 0x1_0000 {
      ThreeByteSpace(c, s);
    } else {
      assert s[0] >= 0xF0;
    }
  }

  /** An id is blank if and only if every character of it is white space; so an empty one is. */
  lemma {:induction false} BlankIff(text: seq<CodePoint>)
    ensures IsBlank(Utf8OfAll(text)) <==> forall i :: 0 <= i < |text| ==> IsWhiteSpace(text[i])
  {
    if text != [] {
      var rest := Utf8OfAll(text[1..]);
      WhiteSpaceAtFront(text[0], rest);
      BlankIff(text[1..]);
      assert (Utf8Of(text[0]) + rest)[|Utf8Of(text[0])|..] == rest;
    }
  }

  /** Length of the dot at the front of `s`, itself or as an escape; 0 if there is none. */
  function DotAt(s: Bytes): (n: nat)
    ensures n <= |s|
  {
    if |s| >= 1 && s[0] == DOT then 1
    else if |s| >= 3 && s[0] == PERCENT && s[1] == 0x32 && (s[2] == 0x65 || s[2] == 0x45) then 3
    else 0
  }

  lemma FrontDot(x: byte, y: Bytes, rest: Bytes, dotted: Bytes)
    requires dotted == [DOT] + rest
    ensures [x] + y == dotted <==> x == DOT && y == rest
  {
    assert ([x] + y)[0] == x && ([x] + y)[1..] == y && dotted[1..] == rest;
  }

  lemma DecodedDot(s: Bytes, rest: Bytes, dotted: Bytes)
    requires dotted == [DOT] + rest
    ensures Decoded(s) == Some(dotted) <==> DotAt(s) > 0 && Decoded(s[DotAt(s)..]) == Some(rest)
  {
    if s != [] && s[0] != PERCENT && Decoded(s[1..]).Some? {
      FrontDot(s[0], Decoded(s[1..]).value, rest, dotted);
    } else if |s| >= 3 && s[0] == PERCENT && HexValue(s[1]).Some? && HexValue(s[2]).Some? && Decoded(s[3..]).Some? {
      FrontDot(HexByte(s[1], s[2]), Decoded(s[3..]).value, rest, dotted);
    }
  }

  /** `id` is one dot, or two, and nothing else. */
  predicate IsDots(id: Bytes) {
    var n := DotAt(id);
    n > 0 && (n == |id| || (DotAt(id[n..]) > 0 && DotAt(id[n..]) == |id[n..]|))
  }

  predicate IsEscapedDot(s: Bytes) { |s| == 3 && s[0] == PERCENT && s[1] == 0x32 && (s[2] == 0x65 || s[2] == 0x45) }

  lemma DotsByLength(id: Bytes)
    ensures IsDots(id) <==>
            id == [DOT] || id == [DOT, DOT] || IsEscapedDot(id)
            || (|id| == 4 && id[0] == DOT && IsEscapedDot(id[1..]))
            || (|id| == 4 && IsEscapedDot(id[..3]) && id[3] == DOT)
            || (|id| == 6 && IsEscapedDot(id[..3]) && IsEscapedDot(id[3..]))
  {
  }

  lemma LowerParts(id: Bytes, k: nat)
    requires k <= |id|
    ensures ToAsciiLowercase(id)[..k] == ToAsciiLowercase(id[..k])
    ensures ToAsciiLowercase(id)[k..] == ToAsciiLowercase(id[k..])
  {
    assert id == id[..k] + id[k..];
    LowerConcat(id[..k], id[k..], id);
  }

  lemma {:induction false} LowerConcat(a: Bytes, b: Bytes, all: Bytes)
    requires all == a + b
    ensures ToAsciiLowercase(all) == ToAsciiLowercase(a) + ToAsciiLowercase(b)
  {
    if a == [] {
      assert all == b;
    } else {
      assert all[0] == a[0] && all[1..] == a[1..] + b;
      LowerConcat(a[1..], b, all[1..]);
    }
  }

  lemma LowerEscape(s: Bytes)
    ensures ToAsciiLowercase(s) == [PERCENT, 0x32, 0x65] <==> IsEscapedDot(s)
    ensures ToAsciiLowercase(s) == [DOT] <==> s == [DOT]
    ensures ToAsciiLowercase(s) == [DOT, DOT] <==> s == [DOT, DOT]
  {
    var lower := ToAsciiLowercase(s);
    if IsEscapedDot(s) {
      assert lower[0] == PERCENT && lower[1] == 0x32 && lower[2] == 0x65;
    }
    if lower == [DOT, DOT] {
      assert s[0] == DOT && s[1] == DOT;
    }
    if lower == [DOT] {
      assert s[0] == DOT;
    }
  }

  lemma Halves(s: Bytes, k: nat, a: Bytes, b: Bytes)
    requires k <= |s| && |a| == k
    ensures s == a + b <==> s[..k] == a && s[k..] == b
  {
    if s[..k] == a && s[k..] == b {
      assert s == s[..k] + s[k..];
    }
  }

  lemma DotThenEscape(id: Bytes)
    requires |id| == 4
    ensures ToAsciiLowercase(id) == [DOT, PERCENT, 0x32, 0x65] <==> id[0] == DOT && IsEscapedDot(id[1..])
  {
    LowerParts(id, 1);
    LowerEscape(id[..1]);
    LowerEscape(id[1..]);
    Halves(ToAsciiLowercase(id), 1, [DOT], [PERCENT, 0x32, 0x65]);
    assert [DOT] + [PERCENT, 0x32, 0x65] == [DOT, PERCENT, 0x32, 0x65];
    assert id[..1] == [id[0]];
  }

  lemma EscapeThenDot(id: Bytes)
    requires |id| == 4
    ensures ToAsciiLowercase(id) == [PERCENT, 0x32, 0x65, DOT] <==> IsEscapedDot(id[..3]) && id[3] == DOT
  {
    LowerParts(id, 3);
    LowerEscape(id[..3]);
    LowerEscape(id[3..]);
    Halves(ToAsciiLowercase(id), 3, [PERCENT, 0x32, 0x65], [DOT]);
    assert [PERCENT, 0x32, 0x65] + [DOT] == [PERCENT, 0x32, 0x65, DOT];
    assert id[3..] == [id[3]];
  }

  lemma SixBytes(id: Bytes)
    requires |id| == 6
    ensures IsDotSpelling(ToAsciiLowercase(id)) <==> IsEscapedDot(id[..3]) && IsEscapedDot(id[3..])
  {
    LowerParts(id, 3);
    LowerEscape(id[..3]);
    LowerEscape(id[3..]);
    Halves(ToAsciiLowercase(id), 3, [PERCENT, 0x32, 0x65], [PERCENT, 0x32, 0x65]);
    assert [PERCENT, 0x32, 0x65] + [PERCENT, 0x32, 0x65] == [PERCENT, 0x32, 0x65, PERCENT, 0x32, 0x65];
  }

  lemma DotSpelling(id: Bytes)
    ensures IsDotSpelling(ToAsciiLowercase(id)) <==> IsDots(id)
  {
    DotsByLength(id);
    if |id| == 4 {
      DotThenEscape(id);
      EscapeThenDot(id);
    } else if |id| == 6 {
      SixBytes(id);
    } else {
      LowerEscape(id);
    }
  }

  lemma DecodedEmpty(s: Bytes)
    ensures Decoded(s) == Some([]) <==> s == []
  {
  }

  lemma OneDot(s: Bytes)
    ensures Decoded(s) == Some([DOT]) <==> DotAt(s) > 0 && DotAt(s) == |s|
  {
    DecodedDot(s, [], [DOT]);
    DecodedEmpty(s[DotAt(s)..]);
  }

  lemma TwoDots(s: Bytes, behind: Bytes, two: Bytes)
    requires behind == s[DotAt(s)..] && two == [DOT, DOT]
    ensures Decoded(s) == Some(two) <==> DotAt(s) > 0 && DotAt(behind) > 0 && DotAt(behind) == |behind|
  {
    assert two == [DOT] + [DOT];
    DecodedDot(s, [DOT], two);
    OneDot(behind);
  }

  /** The refused dot-segments are exactly the ids that a URL parser decodes to one or two dots. */
  lemma DotSpellingIff(id: Bytes)
    ensures IsDotSpelling(ToAsciiLowercase(id)) <==> Decoded(id) == Some([DOT]) || Decoded(id) == Some([DOT, DOT])
  {
    OneDot(id);
    TwoDots(id, id[DotAt(id)..], [DOT, DOT]);
    DotSpelling(id);
  }

  ghost predicate UpperHex(b: byte) { 0x30 <= b <= 0x39 || 0x41 <= b <= 0x46 }

  /** Escapes are two upper-case digits, and what is not part of one is an unreserved character. */
  ghost predicate UpperCaseEscapes(s: Bytes)
    decreases |s|
  {
    s == [] ||
    if s[0] == PERCENT then |s| >= 3 && UpperHex(s[1]) && UpperHex(s[2]) && UpperCaseEscapes(s[3..])
    else IsUnreserved(s[0]) && UpperCaseEscapes(s[1..])
  }

  lemma {:induction false} EscapesAreUpperCase(s: Bytes)
    ensures UpperCaseEscapes(Encoded(s))
  {
    if s != [] {
      EscapesAreUpperCase(s[1..]);
      var e := EncodeByte(s[0]);
      assert Encoded(s)[|e|..] == Encoded(s[1..]);
    }
  }

  /** A byte stays as it is exactly if it is a letter, a digit or one of `-._~`; every other byte becomes an escape. */
  lemma EscapedIffReserved(b: byte)
    ensures var c := b as char;
            if 'A' <= c <= 'Z' || 'a' <= c <= 'z' || '0' <= c <= '9' || c in "-._~" then Encoded([b]) == [b]
            else |Encoded([b])| == 3 && Encoded([b])[0] == PERCENT
  {
    assert Encoded([b]) == EncodeByte(b) + Encoded([]);
  }

  /**
   The encoded form of an accepted id is never a dot-segment, in any spelling a URL parser
   normalizes: the encoder leaves dots alone, and never writes `%2E` or `%2e`.
   */
  lemma EncodedIsNoDotSegment(id: Bytes)
    requires IsValidId(id)
    ensures Encoded(id) != [] && !IsDotSpelling(ToAsciiLowercase(Encoded(id)))
  {
    EncodedIsSegment(id);
    var lower := ToAsciiLowercase(Encoded(id));
    if IsDotSpelling(lower) {
      if lower[0] == PERCENT {
        EscapeIsReserved(id);
      } else if |lower| == 4 {
        assert id[0] == DOT && Encoded(id)[1..] == Encoded(id[1..]) by { FirstIsPlain(id); }
        assert ToAsciiLowercase(Encoded(id[1..])) == lower[1..];
        EscapeIsReserved(id[1..]);
      } else {
        FirstIsPlain(id);
        if |lower| == 2 {
          FirstIsPlain(id[1..]);
        }
        DotsAreTheirOwn(id, lower);
      }
    }
  }

  /** An escape at the front stands for a byte that is not unreserved, so not for a dot. */
  lemma EscapeIsReserved(id: Bytes)
    requires |Encoded(id)| >= 3 && Encoded(id)[0] == PERCENT
    ensures ToAsciiLowercase(Encoded(id))[..3] != [PERCENT, 0x32, 0x65]
  {
    var e, lower := Encoded(id), ToAsciiLowercase(Encoded(id));
    assert !IsUnreserved(id[0]) && e[1] == Hex(id[0] / 16) && e[2] == Hex(id[0] % 16);
    assert lower[..3] == [LowerByte(e[0]), LowerByte(e[1]), LowerByte(e[2])];
    assert LowerByte(e[1]) == 0x32 ==> id[0] / 16 == 2;
    assert LowerByte(e[2]) == 0x65 ==> id[0] % 16 == 14;
  }

  lemma FirstIsPlain(id: Bytes)
    requires id != [] && Encoded(id)[0] != PERCENT
    ensures Encoded(id)[0] == id[0] && Encoded(id)[1..] == Encoded(id[1..])
  {
  }

  lemma DotsAreTheirOwn(id: Bytes, lower: Bytes)
    requires lower == ToAsciiLowercase(Encoded(id)) && (lower == [DOT] || lower == [DOT, DOT])
    ensures ToAsciiLowercase(id) == lower
  {
    var e := Encoded(id);
    assert e == lower by { assert forall i :: 0 <= i < |e| ==> LowerByte(e[i]) == DOT; }
    FirstIsPlain(id);
    EncodedIsSegment(id[1..]);
    if |lower| == 2 {
      FirstIsPlain(id[1..]);
      EncodedIsSegment(id[2..]);
      assert id == [DOT, DOT];
    } else {
      assert id == [DOT];
    }
  }

  // ---------------------------------------------------------------------
  // The routes
  // ---------------------------------------------------------------------

  /** The words that templates are made of. */
  datatype Word =
    | V3 | WORKSPACES | LIST | SEARCH | QUEUE | STATUS | SCHEDULE_DREAM
    | PEERS | CHAT | REPRESENTATION | CARD | CONTEXT | SESSIONS | CLONE
    | SUMMARIES | CONFIG | MESSAGES | UPLOAD | CONCLUSIONS | QUERY

  function Text(w: Word): string {
    match w
    case V3 => "v3"
    case WORKSPACES => "workspaces"
    case LIST => "list"
    case SEARCH => "search"
    case QUEUE => "queue"
    case STATUS => "status"
    case SCHEDULE_DREAM => "schedule_dream"
    case PEERS => "peers"
    case CHAT => "chat"
    case REPRESENTATION => "representation"
    case CARD => "card"
    case CONTEXT => "context"
    case SESSIONS => "sessions"
    case CLONE => "clone"
    case SUMMARIES => "summaries"
    case CONFIG => "config"
    case MESSAGES => "messages"
    case UPLOAD => "upload"
    case CONCLUSIONS => "conclusions"
    case QUERY => "query"
  }

  /** A word of the template, or the place of parameter number `param`. */
  datatype Segment = Lit(word: Word) | Id(param: nat)

  datatype Route =
    | Workspaces | WorkspacesList | Workspace | WorkspaceSearch | WorkspaceQueueStatus | WorkspaceScheduleDream
    | Peers | PeersList | Peer | PeerChat | PeerRepresentation | PeerCard | PeerContext | PeerSearch | PeerSessionsList
    | Sessions | SessionsList | Session | SessionClone | SessionContext | SessionSummaries | SessionSearch
    | SessionPeers | SessionPeerConfig | Messages | MessagesList | Message | MessagesUpload
    | Conclusions | ConclusionsList | ConclusionsQuery | Conclusion

  const WS: seq<Segment> := [Lit(V3), Lit(WORKSPACES)]

  function Template(r: Route): seq<Segment> {
    match r
    case Workspaces => WS
    case WorkspacesList => WS + [Lit(LIST)]
    case Workspace => WS + [Id(0)]
    case WorkspaceSearch => WS + [Id(0), Lit(SEARCH)]
    case WorkspaceQueueStatus => WS + [Id(0), Lit(QUEUE), Lit(STATUS)]
    case WorkspaceScheduleDream => WS + [Id(0), Lit(SCHEDULE_DREAM)]
    case Peers => WS + [Id(0), Lit(PEERS)]
    case PeersList => WS + [Id(0), Lit(PEERS), Lit(LIST)]
    case Peer => WS + [Id(0), Lit(PEERS), Id(1)]
    case PeerChat => WS + [Id(0), Lit(PEERS), Id(1), Lit(CHAT)]
    case PeerRepresentation => WS + [Id(0), Lit(PEERS), Id(1), Lit(REPRESENTATION)]
    case PeerCard => WS + [Id(0), Lit(PEERS), Id(1), Lit(CARD)]
    case PeerContext => WS + [Id(0), Lit(PEERS), Id(1), Lit(CONTEXT)]
    case PeerSearch => WS + [Id(0), Lit(PEERS), Id(1), Lit(SEARCH)]
    case PeerSessionsList => WS + [Id(0), Lit(PEERS), Id(1), Lit(SESSIONS)]
    case Sessions => WS + [Id(0), Lit(SESSIONS)]
    case SessionsList => WS + [Id(0), Lit(SESSIONS), Lit(LIST)]
    case Session => WS + [Id(0), Lit(SESSIONS), Id(1)]
    case SessionClone => WS + [Id(0), Lit(SESSIONS), Id(1), Lit(CLONE)]
    case SessionContext => WS + [Id(0), Lit(SESSIONS), Id(1), Lit(CONTEXT)]
    case SessionSummaries => WS + [Id(0), Lit(SESSIONS), Id(1), Lit(SUMMARIES)]
    case SessionSearch => WS + [Id(0), Lit(SESSIONS), Id(1), Lit(SEARCH)]
    case SessionPeers => WS + [Id(0), Lit(SESSIONS), Id(1), Lit(PEERS)]
    case SessionPeerConfig => WS + [Id(0), Lit(SESSIONS), Id(1), Lit(PEERS), Id(2), Lit(CONFIG)]
    case Messages => WS + [Id(0), Lit(SESSIONS), Id(1), Lit(MESSAGES)]
    case MessagesList => WS + [Id(0), Lit(SESSIONS), Id(1), Lit(MESSAGES), Lit(LIST)]
    case Message => WS + [Id(0), Lit(SESSIONS), Id(1), Lit(MESSAGES), Id(2)]
    case MessagesUpload => WS + [Id(0), Lit(SESSIONS), Id(1), Lit(MESSAGES), Lit(UPLOAD)]
    case Conclusions => WS + [Id(0), Lit(CONCLUSIONS)]
    case ConclusionsList => WS + [Id(0), Lit(CONCLUSIONS), Lit(LIST)]
    case ConclusionsQuery => WS + [Id(0), Lit(CONCLUSIONS), Lit(QUERY)]
    case Conclusion => WS + [Id(0), Lit(CONCLUSIONS), Id(1)]
  }

  /** The bytes of an ASCII text. */
  function Ascii(text: string): (bytes: Bytes)
    ensures |bytes| == |text|
    ensures forall i :: 0 <= i < |text| && text[i] < 128 as char ==> bytes[i] == text[i] as int
  {
    if text == "" then [] else [if text[0] < 128 as char then text[0] as int else 0x3F] + Ascii(text[1..])
  }

  function WordBytes(w: Word): Bytes { Ascii(Text(w)) }

  /** Every parameter below `n` has a place in the template, and no other. */
  ghost predicate HasParams(template: seq<Segment>, n: nat) {
    && (forall i :: 0 <= i < |template| && template[i].Id? ==> template[i].param < n)
    && (forall k :: 0 <= k < n ==> Id(k) in template)
  }

  function Arity(r: Route): nat {
    match r
    case Workspaces => 0
    case WorkspacesList => 0
    case SessionPeerConfig => 3
    case Message => 3
    case Peer => 2 case PeerChat => 2 case PeerRepresentation => 2 case PeerCard => 2 case PeerContext => 2
    case PeerSearch => 2 case PeerSessionsList => 2
    case Session => 2 case SessionClone => 2 case SessionContext => 2 case SessionSummaries => 2
    case SessionSearch => 2 case SessionPeers => 2 case Messages => 2 case MessagesList => 2 case MessagesUpload => 2
    case Conclusion => 2
    case _ => 1
  }

  /** Each route uses each of its parameters. */
  lemma TemplateHasParams(r: Route)
    ensures HasParams(Template(r), Arity(r)) && Template(r) != []
  {
    if Arity(r) < 2 {
      ShortTemplates(r);
    } else if Arity(r) == 2 {
      PairTemplates(r);
    } else {
      assert Template(r)[2] == Id(0) && Template(r)[4] == Id(1) && Template(r)[6] == Id(2);
    }
  }

  lemma ShortTemplates(r: Route)
    requires Arity(r) < 2
    ensures HasParams(Template(r), Arity(r)) && Template(r) != []
  {
    assert Arity(r) == 1 ==> Template(r)[2] == Id(0);
  }

  lemma PairTemplates(r: Route)
    requires Arity(r) == 2
    ensures HasParams(Template(r), Arity(r)) && Template(r) != []
  {
  }

  /** How the words are written; `WordBytes` is the one in use. */
  type Spelling = Word -> Bytes

  function Render(spell: Spelling, segment: Segment, ids: seq<Bytes>): Bytes
    requires segment.Id? ==> segment.param < |ids|
  {
    match segment
    case Lit(word) => spell(word)
    case Id(k) => Encoded(ids[k])
  }

  /** The segments of a path, with the encoded ids in the places of the template. */
  function Fill(spell: Spelling, template: seq<Segment>, ids: seq<Bytes>): (segments: seq<Bytes>)
    requires HasParams(template, |ids|)
  {
    seq(|template|, i requires 0 <= i < |template| => Render(spell, template[i], ids))
  }

  function Join(segments: seq<Bytes>): Bytes {
    if segments == [] then [] else [SLASH] + segments[0] + Join(segments[1..])
  }

  /** A route builder: the first id that is not valid is reported by its position. */
  datatype Built = Path(path: Bytes) | BadId(index: nat)

  function FirstBad(ids: seq<Bytes>): (i: nat)
    ensures i <= |ids| && (forall j :: 0 <= j < i ==> IsValidId(ids[j])) && (i < |ids| ==> !IsValidId(ids[i]))
  {
    if ids == [] || !IsValidId(ids[0]) then 0 else 1 + FirstBad(ids[1..])
  }

  function Build(spell: Spelling, template: seq<Segment>, ids: seq<Bytes>): Built
    requires HasParams(template, |ids|)
  {
    if FirstBad(ids) < |ids| then BadId(FirstBad(ids)) else Path(Join(Fill(spell, template, ids)))
  }

  // ---------------------------------------------------------------------
  // A path determines its segments
  // ---------------------------------------------------------------------

  ghost predicate AreSegments(segments: seq<Bytes>) {
    forall i :: 0 <= i < |segments| ==> SLASH !in segments[i]
  }

  /** Everything up to the next slash. */
  function UpToSlash(s: Bytes): Bytes {
    if s == [] || s[0] == SLASH then [] else [s[0]] + UpToSlash(s[1..])
  }

  lemma {:induction false} UpToSlashOf(segment: Bytes, rest: Bytes)
    requires SLASH !in segment && (rest == [] || rest[0] == SLASH)
    ensures UpToSlash(segment + rest) == segment
  {
    if segment == [] {
      assert segment + rest == rest;
    } else {
      assert (segment + rest)[1..] == segment[1..] + rest;
      UpToSlashOf(segment[1..], rest);
    }
  }

  lemma JoinFront(segments: seq<Bytes>)
    requires segments != [] && AreSegments(segments)
    ensures var path := Join(segments);
            && path[0] == SLASH && UpToSlash(path[1..]) == segments[0]
            && path[1 + |segments[0]|..] == Join(segments[1..])
  {
    UpToSlashOf(segments[0], Join(segments[1..]));
    Slices(SLASH, segments[0], Join(segments[1..]));
  }

  lemma Slices<T>(x: T, a: seq<T>, b: seq<T>)
    ensures ([x] + a + b)[1..] == a + b && ([x] + a + b)[1 + |a|..] == b
  {
  }

  lemma {:induction false} JoinInjective(a: seq<Bytes>, b: seq<Bytes>)
    requires AreSegments(a) && AreSegments(b) && Join(a) == Join(b)
    ensures a == b
  {
    if a != [] && b != [] {
      JoinFront(a);
      JoinFront(b);
      assert AreSegments(a[1..]) && AreSegments(b[1..]);
      JoinInjective(a[1..], b[1..]);
      assert a == [a[0]] + a[1..] && b == [b[0]] + b[1..];
    } else if a != [] {
      JoinFront(a);
    } else if b != [] {
      JoinFront(b);
    }
  }

  // ---------------------------------------------------------------------
  // Dot-segment removal leaves a built path alone
  // ---------------------------------------------------------------------

  /** The output with its last segment and the slash before it taken off. */
  function DropLast(output: Bytes): Bytes {
    if output == [] || output[|output| - 1] == SLASH then
      (if output == [] then [] else output[..|output| - 1])
    else DropLast(output[..|output| - 1])
  }

  /** `remove_dot_segments`, section 5.2.4 of RFC 3986, steps A to E. */
  function RemoveDotSegments(input: Bytes, output: Bytes): Bytes
    decreases |input|
  {
    if input == [] then output
    else if input[0] == DOT && |input| >= 3 && input[..3] == [DOT, DOT, SLASH] then RemoveDotSegments(input[3..], output)
    else if input[0] == DOT && |input| >= 2 && input[..2] == [DOT, SLASH] then RemoveDotSegments(input[2..], output)
    else if |input| >= 3 && input[..3] == [SLASH, DOT, SLASH] then RemoveDotSegments(input[2..], output)
    else if input == [SLASH, DOT] then RemoveDotSegments([SLASH], output)
    else if |input| >= 4 && input[..4] == [SLASH, DOT, DOT, SLASH] then RemoveDotSegments(input[3..], DropLast(output))
    else if input == [SLASH, DOT, DOT] then RemoveDotSegments([SLASH], DropLast(output))
    else if input == [DOT] || input == [DOT, DOT] then output
    else
      var segment := [input[0]] + UpToSlash(input[1..]);
      UpToSlashIsPrefix(input[1..]);
      RemoveDotSegments(input[|segment|..], output + segment)
  }

  lemma {:induction false} UpToSlashIsPrefix(s: Bytes)
    ensures UpToSlash(s) <= s && SLASH !in UpToSlash(s)
    ensures |UpToSlash(s)| < |s| ==> s[|UpToSlash(s)|] == SLASH
  {
    if s != [] && s[0] != SLASH {
      UpToSlashIsPrefix(s[1..]);
    }
  }

  ghost predicate NoDots(segments: seq<Bytes>) {
    forall i :: 0 <= i < |segments| ==> segments[i] != [] && segments[i] != [DOT] && segments[i] != [DOT, DOT]
  }

  lemma {:induction false} DotFreePathIsFixed(segments: seq<Bytes>, output: Bytes)
    requires AreSegments(segments) && NoDots(segments)
    ensures RemoveDotSegments(Join(segments), output) == output + Join(segments)
    decreases |segments|
  {
    if segments != [] {
      MoveSegment(segments, output);
      RestIsDotFree(segments);
      DotFreePathIsFixed(segments[1..], output + ([SLASH] + segments[0]));
      Associate(output, [SLASH] + segments[0], Join(segments[1..]));
    } else {
      assert output + [] == output;
    }
  }

  lemma RestIsDotFree(segments: seq<Bytes>)
    requires segments != [] && AreSegments(segments) && NoDots(segments)
    ensures AreSegments(segments[1..]) && NoDots(segments[1..])
  {
  }

  /** Step E moves the first segment, with its slash, to the output. */
  lemma MoveSegment(segments: seq<Bytes>, output: Bytes)
    requires segments != [] && AreSegments(segments)
    requires segments[0] != [] && segments[0] != [DOT] && segments[0] != [DOT, DOT]
    ensures RemoveDotSegments(Join(segments), output) ==
            RemoveDotSegments(Join(segments[1..]), output + ([SLASH] + segments[0]))
  {
    JoinFront(segments);
    NoDotAtFront(segments[0], Join(segments[1..]));
    assert Join(segments) == [SLASH] + segments[0] + Join(segments[1..]);
  }

  /** None of the steps A to D applies to a path whose first segment is not a dot-segment. */
  lemma NoDotAtFront(segment: Bytes, rest: Bytes)
    requires SLASH !in segment && segment != [] && segment != [DOT] && segment != [DOT, DOT]
    requires rest == [] || rest[0] == SLASH
    ensures var path := [SLASH] + segment + rest;
            && path != [SLASH, DOT] && path != [SLASH, DOT, DOT]
            && (|path| >= 3 ==> path[..3] != [SLASH, DOT, SLASH])
            && (|path| >= 4 ==> path[..4] != [SLASH, DOT, DOT, SLASH])
  {
    var path := [SLASH] + segment + rest;
    assert path[1] == segment[0] && segment[0] in segment;
    if |segment| > 1 {
      assert path[2] == segment[1] && segment[1] in segment;
    }
    if |segment| > 2 {
      assert path[3] == segment[2] && segment[2] in segment;
    }
    assert |segment| == 1 ==> segment == [segment[0]];
    assert |segment| == 2 ==> segment == [segment[0], segment[1]];
  }

  // ---------------------------------------------------------------------
  // Theorems about every route
  // ---------------------------------------------------------------------

  predicate IsPlain(c: char) { 'a' <= c <= 'z' || '0' <= c <= '9' || c == '_' }

  /** The words are not empty and made of lower-case letters, digits and underscores. */
  lemma WordIsPlain(w: Word)
    ensures Text(w) != "" && forall c :: c in Text(w) ==> IsPlain(c)
  {
    FirstWords(w);
    MiddleWords(w);
    LastWords(w);
  }

  lemma FirstWords(w: Word)
    ensures w in {V3, WORKSPACES, LIST, SEARCH, QUEUE, STATUS, SCHEDULE_DREAM} ==>
            Text(w) != "" && forall c :: c in Text(w) ==> IsPlain(c)
  {
  }

  lemma MiddleWords(w: Word)
    ensures w in {PEERS, CHAT, REPRESENTATION, CARD, CONTEXT, SESSIONS, CLONE} ==>
            Text(w) != "" && forall c :: c in Text(w) ==> IsPlain(c)
  {
  }

  lemma LastWords(w: Word)
    ensures w in {SUMMARIES, CONFIG, MESSAGES, UPLOAD, CONCLUSIONS, QUERY} ==>
            Text(w) != "" && forall c :: c in Text(w) ==> IsPlain(c)
  {
  }

  lemma PlainIsUnreserved(text: string, b: Bytes, i: nat)
    requires b == Ascii(text) && i < |b| && IsPlain(text[i])
    ensures IsUnreserved(b[i]) && b[i] != DOT && b[i] < 0x80
  {
  }

  /** A plain word is a valid id, and encoding leaves it as it is. */
  lemma PlainIsValidId(text: string, b: Bytes)
    requires text != "" && b == Ascii(text) && forall c :: c in text ==> IsPlain(c)
    ensures IsValidId(b) && Encoded(b) == b
  {
    forall i | 0 <= i < |b|
      ensures IsUnreserved(b[i])
    {
      assert text[i] in text;
      PlainIsUnreserved(text, b, i);
    }
    UnreservedIsUnchanged(b);
    assert text[0] in text;
    PlainIsUnreserved(text, b, 0);
    ValidByFirst(b);
  }

  lemma ValidByFirst(b: Bytes)
    requires b != [] && IsUnreserved(b[0]) && b[0] != DOT
    ensures IsValidId(b)
  {
  }

  /** Every word is a valid id that needs no encoding. */
  ghost predicate IsPlainSpelling(spell: Spelling) {
    forall w :: IsValidId(spell(w)) && Encoded(spell(w)) == spell(w)
  }

  lemma {:induction false} WordBytesIsPlain()
    ensures IsPlainSpelling(WordBytes)
  {
    forall w: Word
      ensures IsValidId(WordBytes(w)) && Encoded(WordBytes(w)) == WordBytes(w)
    {
      WordIsPlain(w);
      PlainIsValidId(Text(w), WordBytes(w));
    }
  }

  lemma {:induction false} UnreservedIsUnchanged(s: Bytes)
    requires forall i :: 0 <= i < |s| ==> IsUnreserved(s[i])
    ensures Encoded(s) == s
  {
    if s != [] {
      UnreservedIsUnchanged(s[1..]);
      assert [s[0]] + s[1..] == s;
    }
  }

  ghost predicate AllSafe(segments: seq<Bytes>) {
    forall i :: 0 <= i < |segments| ==> segments[i] != [] && !IsDotSpelling(ToAsciiLowercase(segments[i]))
  }

  lemma RenderIsSafe(spell: Spelling, segment: Segment, ids: seq<Bytes>)
    requires IsPlainSpelling(spell) && (segment.Id? ==> segment.param < |ids| && IsValidId(ids[segment.param]))
    ensures var b := Render(spell, segment, ids); SLASH !in b && b != [] && !IsDotSpelling(ToAsciiLowercase(b))
  {
    var id := if segment.Id? then ids[segment.param] else spell(segment.word);
    EncodedIsSegment(id);
    EncodedIsNoDotSegment(id);
  }

  lemma {:induction false} FillProperties(spell: Spelling, template: seq<Segment>, ids: seq<Bytes>)
    requires IsPlainSpelling(spell) && HasParams(template, |ids|) && forall i :: 0 <= i < |ids| ==> IsValidId(ids[i])
    ensures AreSegments(Fill(spell, template, ids)) && AllSafe(Fill(spell, template, ids))
  {
    forall i | 0 <= i < |template|
      ensures var b := Fill(spell, template, ids)[i]; SLASH !in b && b != [] && !IsDotSpelling(ToAsciiLowercase(b))
    {
      RenderIsSafe(spell, template[i], ids);
    }
  }

  lemma FillInjective(spell: Spelling, template: seq<Segment>, ids: seq<Bytes>, ids': seq<Bytes>)
    requires |ids| == |ids'| && HasParams(template, |ids|) && Fill(spell, template, ids) == Fill(spell, template, ids')
    ensures ids == ids'
  {
    forall k | 0 <= k < |ids|
      ensures ids[k] == ids'[k]
    {
      var i :| 0 <= i < |template| && template[i] == Id(k);
      assert Fill(spell, template, ids)[i] == Encoded(ids[k]) && Fill(spell, template, ids')[i] == Encoded(ids'[k]);
      EncodedInjective(ids[k], ids'[k]);
    }
  }

  /** The pieces of a path between its slashes. */
  function SplitPath(path: Bytes): seq<Bytes>
    requires path == [] || path[0] == SLASH
    decreases |path|
  {
    if path == [] then []
    else
      var segment := UpToSlash(path[1..]);
      UpToSlashIsPrefix(path[1..]);
      [segment] + SplitPath(path[1 + |segment|..])
  }

  lemma {:induction false} SplitJoin(segments: seq<Bytes>)
    requires AreSegments(segments)
    ensures Join(segments) != [] ==> Join(segments)[0] == SLASH
    ensures SplitPath(Join(segments)) == segments
    decreases |segments|
  {
    if segments != [] {
      JoinFront(segments);
      assert AreSegments(segments[1..]);
      SplitJoin(segments[1..]);
    }
  }

  /**
   Every accepted route, of any template: splitting its path at the slashes gives exactly
   the segments of the template, literals in place and ids encoded, and dot-segment
   removal, under any spelling of dots, finds nothing to remove.
   */
  lemma BuiltPathIsSafe(spell: Spelling, template: seq<Segment>, ids: seq<Bytes>)
    requires IsPlainSpelling(spell) && HasParams(template, |ids|) && template != [] && Build(spell, template, ids).Path?
    ensures var path := Build(spell, template, ids).path;
            && path != [] && path[0] == SLASH
            && SplitPath(path) == Fill(spell, template, ids) && |SplitPath(path)| == |template|
            && AllSafe(SplitPath(path))
            && RemoveDotSegments(path, []) == path
  {
    FillProperties(spell, template, ids);
    SafePath(Fill(spell, template, ids));
  }

  lemma SafePath(segments: seq<Bytes>)
    requires segments != [] && AreSegments(segments) && AllSafe(segments)
    ensures var path := Join(segments);
            path != [] && path[0] == SLASH && SplitPath(path) == segments && RemoveDotSegments(path, []) == path
  {
    SplitJoin(segments);
    JoinFront(segments);
    assert ToAsciiLowercase([DOT]) == [DOT] && ToAsciiLowercase([DOT, DOT]) == [DOT, DOT];
    DotFreePathIsFixed(segments, []);
    assert [] + Join(segments) == Join(segments);
  }

  /** A builder accepts exactly the lists of valid ids, and different ids give different paths. */
  lemma BuilderIsInjective(spell: Spelling, template: seq<Segment>, ids: seq<Bytes>, ids': seq<Bytes>)
    requires IsPlainSpelling(spell) && |ids| == |ids'| && HasParams(template, |ids|)
    ensures Build(spell, template, ids).Path? <==> forall i :: 0 <= i < |ids| ==> IsValidId(ids[i])
    ensures Build(spell, template, ids).Path? && Build(spell, template, ids) == Build(spell, template, ids') ==> ids == ids'
  {
    if Build(spell, template, ids).Path? && Build(spell, template, ids) == Build(spell, template, ids') {
      FillProperties(spell, template, ids);
      FillProperties(spell, template, ids');
      JoinInjective(Fill(spell, template, ids), Fill(spell, template, ids'));
      FillInjective(spell, template, ids, ids');
    }
  }

  /** Two accepted routes share a path if and only if they agree segment by segment. */
  lemma RoutesCollideIff(spell: Spelling, t: seq<Segment>, ids: seq<Bytes>, t': seq<Segment>, ids': seq<Bytes>)
    requires IsPlainSpelling(spell) && HasParams(t, |ids|) && HasParams(t', |ids'|)
    requires Build(spell, t, ids).Path? && Build(spell, t', ids').Path?
    ensures Build(spell, t, ids) == Build(spell, t', ids') <==> Fill(spell, t, ids) == Fill(spell, t', ids')
  {
    FillProperties(spell, t, ids);
    FillProperties(spell, t', ids');
    if Build(spell, t, ids) == Build(spell, t', ids') {
      JoinInjective(Fill(spell, t, ids), Fill(spell, t', ids'));
    }
  }

  /** Where one template ends in an id and another in a word, they share a path if and only if the id is that word. */
  lemma LastIdCollides(spell: Spelling, front: seq<Segment>, ids: seq<Bytes>, w: Word, id: Bytes)
    requires IsPlainSpelling(spell) && HasParams(front, |ids|) && IsValidId(id)
    requires forall i :: 0 <= i < |ids| ==> IsValidId(ids[i])
    ensures HasParams(front + [Id(|ids|)], |ids + [id]|) && HasParams(front + [Lit(w)], |ids|)
    ensures Build(spell, front + [Id(|ids|)], ids + [id]) == Build(spell, front + [Lit(w)], ids) <==> id == spell(w)
  {
    FillLast(spell, front, ids, w, id);
    SameLast(Fill(spell, front, ids), Encoded(id), spell(w));
    RoutesCollideIff(spell, front + [Id(|ids|)], ids + [id], front + [Lit(w)], ids);
    if Encoded(id) == Encoded(spell(w)) {
      EncodedInjective(id, spell(w));
    }
  }

  lemma FillLast(spell: Spelling, front: seq<Segment>, ids: seq<Bytes>, w: Word, id: Bytes)
    requires HasParams(front, |ids|)
    ensures HasParams(front + [Id(|ids|)], |ids + [id]|) && HasParams(front + [Lit(w)], |ids|)
    ensures Fill(spell, front + [Lit(w)], ids) == Fill(spell, front, ids) + [spell(w)]
    ensures Fill(spell, front + [Id(|ids|)], ids + [id]) == Fill(spell, front, ids) + [Encoded(id)]
  {
  }

  lemma SameLast<T>(s: seq<T>, x: T, y: T)
    ensures s + [x] == s + [y] <==> x == y
  {
    assert (s + [x])[|s|] == x && (s + [y])[|s|] == y;
  }

  // ---------------------------------------------------------------------
  // Which routes of the program share a path
  // ---------------------------------------------------------------------

  /** A word by its length, its first and its last character. */
  function Key(w: Word): (nat, char, char) {
    match w
    case V3 => (2, 'v', '3')
    case WORKSPACES => (10, 'w', 's')
    case LIST => (4, 'l', 't')
    case SEARCH => (6, 's', 'h')
    case QUEUE => (5, 'q', 'e')
    case STATUS => (6, 's', 's')
    case SCHEDULE_DREAM => (14, 's', 'm')
    case PEERS => (5, 'p', 's')
    case CHAT => (4, 'c', 't')
    case REPRESENTATION => (14, 'r', 'n')
    case CARD => (4, 'c', 'd')
    case CONTEXT => (7, 'c', 't')
    case SESSIONS => (8, 's', 's')
    case CLONE => (5, 'c', 'e')
    case SUMMARIES => (9, 's', 's')
    case CONFIG => (6, 'c', 'g')
    case MESSAGES => (8, 'm', 's')
    case UPLOAD => (6, 'u', 'd')
    case CONCLUSIONS => (11, 'c', 's')
    case QUERY => (5, 'q', 'y')
  }

  predicate HasKey(text: string, key: (nat, char, char)) {
    |text| == key.0 > 0 && text[0] == key.1 && text[|text| - 1] == key.2
  }

  lemma TextHasKey(w: Word)
    ensures HasKey(Text(w), Key(w)) && Key(w).1 < 128 as char && Key(w).2 < 128 as char
  {
  }

  lemma KeysAreUnique(w: Word, w': Word)
    requires Key(w) == Key(w')
    ensures w == w'
  {
  }

  ghost predicate IsInjectiveSpelling(spell: Spelling) { forall w, w' :: spell(w) == spell(w') ==> w == w' }

  lemma WordBytesIsInjective()
    ensures IsInjectiveSpelling(WordBytes)
  {
    forall w, w' | WordBytes(w) == WordBytes(w')
      ensures w == w'
    {
      TextHasKey(w);
      TextHasKey(w');
      SameKey(Text(w), Key(w), Text(w'), Key(w'));
      KeysAreUnique(w, w');
    }
  }

  lemma SameKey(text: string, key: (nat, char, char), text': string, key': (nat, char, char))
    requires HasKey(text, key) && key.1 < 128 as char && key.2 < 128 as char
    requires HasKey(text', key') && key'.1 < 128 as char && key'.2 < 128 as char
    requires Ascii(text) == Ascii(text')
    ensures key == key'
  {
    var b := Ascii(text);
    assert b[0] == text[0] as int && b[0] == text'[0] as int;
    assert b[|b| - 1] == text[|b| - 1] as int && b[|b| - 1] == text'[|b| - 1] as int;
  }

  /** A template by its length, the words at its positions 3 and 5, and its last segment. */
  datatype Outline = Outline(len: nat, third: Option<Word>, fifth: Option<Word>, last: Segment)

  function OutlineOf(r: Route): Outline {
    match r
    case Workspaces => Outline(2, None, None, Lit(WORKSPACES))
    case WorkspacesList => Outline(3, None, None, Lit(LIST))
    case Workspace => Outline(3, None, None, Id(0))
    case WorkspaceSearch => Outline(4, Some(SEARCH), None, Lit(SEARCH))
    case WorkspaceQueueStatus => Outline(5, Some(QUEUE), None, Lit(STATUS))
    case WorkspaceScheduleDream => Outline(4, Some(SCHEDULE_DREAM), None, Lit(SCHEDULE_DREAM))
    case Peers => Outline(4, Some(PEERS), None, Lit(PEERS))
    case PeersList => Outline(5, Some(PEERS), None, Lit(LIST))
    case Peer => Outline(5, Some(PEERS), None, Id(1))
    case PeerChat => Outline(6, Some(PEERS), Some(CHAT), Lit(CHAT))
    case PeerRepresentation => Outline(6, Some(PEERS), Some(REPRESENTATION), Lit(REPRESENTATION))
    case PeerCard => Outline(6, Some(PEERS), Some(CARD), Lit(CARD))
    case PeerContext => Outline(6, Some(PEERS), Some(CONTEXT), Lit(CONTEXT))
    case PeerSearch => Outline(6, Some(PEERS), Some(SEARCH), Lit(SEARCH))
    case PeerSessionsList => Outline(6, Some(PEERS), Some(SESSIONS), Lit(SESSIONS))
    case Sessions => Outline(4, Some(SESSIONS), None, Lit(SESSIONS))
    case SessionsList => Outline(5, Some(SESSIONS), None, Lit(LIST))
    case Session => Outline(5, Some(SESSIONS), None, Id(1))
    case SessionClone => Outline(6, Some(SESSIONS), Some(CLONE), Lit(CLONE))
    case SessionContext => Outline(6, Some(SESSIONS), Some(CONTEXT), Lit(CONTEXT))
    case SessionSummaries => Outline(6, Some(SESSIONS), Some(SUMMARIES), Lit(SUMMARIES))
    case SessionSearch => Outline(6, Some(SESSIONS), Some(SEARCH), Lit(SEARCH))
    case SessionPeers => Outline(6, Some(SESSIONS), Some(PEERS), Lit(PEERS))
    case SessionPeerConfig => Outline(8, Some(SESSIONS), Some(PEERS), Lit(CONFIG))
    case Messages => Outline(6, Some(SESSIONS), Some(MESSAGES), Lit(MESSAGES))
    case MessagesList => Outline(7, Some(SESSIONS), Some(MESSAGES), Lit(LIST))
    case Message => Outline(7, Some(SESSIONS), Some(MESSAGES), Id(2))
    case MessagesUpload => Outline(7, Some(SESSIONS), Some(MESSAGES), Lit(UPLOAD))
    case Conclusions => Outline(4, Some(CONCLUSIONS), None, Lit(CONCLUSIONS))
    case ConclusionsList => Outline(5, Some(CONCLUSIONS), None, Lit(LIST))
    case ConclusionsQuery => Outline(5, Some(CONCLUSIONS), None, Lit(QUERY))
    case Conclusion => Outline(5, Some(CONCLUSIONS), None, Id(1))
  }

  ghost predicate HasOutline(t: seq<Segment>, o: Outline) {
    && |t| == o.len && (o.third.Some? <==> |t| > 3) && (o.fifth.Some? <==> |t| > 5)
    && (|t| > 3 ==> t[3] == Lit(o.third.value)) && (|t| > 5 ==> t[5] == Lit(o.fifth.value))
    && t != [] && t[|t| - 1] == o.last
  }

  lemma TemplateHasOutline(r: Route)
    ensures HasOutline(Template(r), OutlineOf(r))
  {
  }

  /** `r` ends in an id where `r'` ends in a word. */
  predicate Shadows(r: Route, r': Route) {
    match r
    case Workspace => r' == WorkspacesList
    case Peer => r' == PeersList
    case Session => r' == SessionsList
    case Message => r' == MessagesList || r' == MessagesUpload
    case Conclusion => r' == ConclusionsList || r' == ConclusionsQuery
    case _ => false
  }

  lemma ShortOutlines(r: Route)
    ensures OutlineOf(r).len <= 4 ==>
            r in {Workspaces, WorkspacesList, Workspace, WorkspaceSearch, WorkspaceScheduleDream,
                  Peers, Sessions, Conclusions}
    ensures OutlineOf(r).len == 5 ==>
            r in {WorkspaceQueueStatus, PeersList, Peer, SessionsList, Session,
                  ConclusionsList, ConclusionsQuery, Conclusion}
  {
  }

  lemma LongOutlines(r: Route)
    ensures OutlineOf(r).len == 6 ==> OutlineOf(r).fifth == Some(OutlineOf(r).last.word)
    ensures OutlineOf(r).len >= 7 ==> r in {MessagesList, Message, MessagesUpload, SessionPeerConfig}
  {
  }

  /** Outlines of length 6 are told apart by their words. */
  lemma SixSegments(r: Route, r': Route)
    requires OutlineOf(r) == OutlineOf(r') && OutlineOf(r).len == 6
    ensures r == r'
  {
    match r
    case PeerChat =>
    case PeerRepresentation =>
    case PeerCard =>
    case PeerContext =>
    case PeerSearch =>
    case PeerSessionsList =>
    case SessionClone =>
    case SessionContext =>
    case SessionSummaries =>
    case SessionSearch =>
    case SessionPeers =>
    case Messages =>
    case _ =>
  }

  /** They agree but for an id against a word at the end. */
  predicate OutlinesMeet(o: Outline, o': Outline) {
    o.len == o'.len && o.third == o'.third && o.fifth == o'.fifth && (o.last.Lit? && o'.last.Lit? ==> o.last == o'.last)
  }

  lemma ShortOutlinesMeet(r: Route, r': Route)
    requires r != r' && OutlinesMeet(OutlineOf(r), OutlineOf(r')) && OutlineOf(r).len <= 5
    ensures Shadows(r, r') || Shadows(r', r)
  {
    ShortOutlines(r);
    ShortOutlines(r');
  }

  lemma LongOutlinesMeet(r: Route, r': Route)
    requires r != r' && OutlinesMeet(OutlineOf(r), OutlineOf(r')) && OutlineOf(r).len >= 7
    ensures Shadows(r, r') || Shadows(r', r)
  {
    LongOutlines(r);
    LongOutlines(r');
  }

  lemma SixOutlinesMeet(r: Route, r': Route)
    requires OutlinesMeet(OutlineOf(r), OutlineOf(r')) && OutlineOf(r).len == 6
    ensures r == r'
  {
    LongOutlines(r);
    LongOutlines(r');
    SixSegments(r, r');
  }

  lemma OutlinesAgree(r: Route, r': Route)
    requires r != r' && OutlinesMeet(OutlineOf(r), OutlineOf(r'))
    ensures Shadows(r, r') || Shadows(r', r)
  {
    var len := OutlineOf(r).len;
    if len <= 5 {
      ShortOutlinesMeet(r, r');
    } else if len >= 7 {
      LongOutlinesMeet(r, r');
    } else {
      SixOutlinesMeet(r, r');
    }
  }

  /** The template of a route that is shadowed, without its last word. */
  function Front(r: Route): seq<Segment> {
    match r
    case WorkspacesList => WS
    case PeersList => WS + [Id(0), Lit(PEERS)]
    case SessionsList => WS + [Id(0), Lit(SESSIONS)]
    case MessagesList => WS + [Id(0), Lit(SESSIONS), Id(1), Lit(MESSAGES)]
    case MessagesUpload => WS + [Id(0), Lit(SESSIONS), Id(1), Lit(MESSAGES)]
    case ConclusionsList => WS + [Id(0), Lit(CONCLUSIONS)]
    case ConclusionsQuery => WS + [Id(0), Lit(CONCLUSIONS)]
    case _ => []
  }

  lemma ShadowTemplates(r: Route, r': Route)
    requires Shadows(r, r')
    ensures OutlineOf(r').last.Lit? && Arity(r) == Arity(r') + 1
    ensures Template(r) == Front(r') + [Id(Arity(r'))] && Template(r') == Front(r') + [OutlineOf(r').last]
  {
    match r
    case Workspace =>
    case Peer =>
    case Session =>
    case Message =>
    case Conclusion =>
  }

  lemma FrontHasParams(front: seq<Segment>, w: Word, n: nat)
    requires HasParams(front + [Lit(w)], n)
    ensures HasParams(front, n)
  {
    var t := front + [Lit(w)];
    forall i | 0 <= i < |front| && front[i].Id?
      ensures front[i].param < n
    {
      assert t[i] == front[i];
    }
    forall k | 0 <= k < n
      ensures Id(k) in front
    {
      assert Id(k) in t;
    }
  }

  /** Two routes with the same front, an id and a word at the end. */
  lemma SameFront(spell: Spelling, front: seq<Segment>, ids: seq<Bytes>, w: Word, ids': seq<Bytes>)
    requires IsPlainSpelling(spell) && HasParams(front, |ids'|) && |ids| == |ids'| + 1
    requires AllValid(ids) && AllValid(ids')
    ensures HasParams(front + [Id(|ids'|)], |ids|) && HasParams(front + [Lit(w)], |ids'|)
    ensures Build(spell, front + [Id(|ids'|)], ids) == Build(spell, front + [Lit(w)], ids') <==> ids == ids' + [spell(w)]
  {
    var n := |ids'|;
    var before, id := ids[..n], ids[n];
    assert ids == before + [id];
    FillLast(spell, front, before, w, id);
    FillLast(spell, front, ids', w, id);
    RoutesCollideIff(spell, front + [Id(n)], ids, front + [Lit(w)], ids');
    SplitLast(Fill(spell, front, before), Encoded(id), Fill(spell, front, ids'), spell(w));
    if Fill(spell, front, before) == Fill(spell, front, ids') && Encoded(id) == spell(w) {
      FillInjective(spell, front, before, ids');
      EncodedInjective(id, spell(w));
    }
  }

  lemma SplitLast<T>(s: seq<T>, x: T, s': seq<T>, y: T)
    ensures s + [x] == s' + [y] <==> s == s' && x == y
  {
    if s + [x] == s' + [y] {
      assert (s + [x])[..|s|] == s && (s' + [y])[..|s'|] == s';
      assert (s + [x])[|s|] == x && (s' + [y])[|s'|] == y;
    }
  }

  ghost predicate AllValid(ids: seq<Bytes>) { forall i :: 0 <= i < |ids| ==> IsValidId(ids[i]) }

  function BuildRoute(spell: Spelling, r: Route, ids: seq<Bytes>): Built
    requires |ids| == Arity(r)
    ensures HasParams(Template(r), |ids|)
  {
    TemplateHasParams(r);
    Build(spell, Template(r), ids)
  }

  /** `r` ends in an id, `r'` in a word, the ids before are the same and the last one is that word. */
  ghost predicate Coincide(spell: Spelling, r: Route, ids: seq<Bytes>, r': Route, ids': seq<Bytes>) {
    Shadows(r, r') && OutlineOf(r').last.Lit? && ids == ids' + [spell(OutlineOf(r').last.word)]
  }

  lemma ShadowsCoincide(spell: Spelling, r: Route, ids: seq<Bytes>, r': Route, ids': seq<Bytes>)
    requires IsPlainSpelling(spell) && Shadows(r, r')
    requires |ids| == Arity(r) && |ids'| == Arity(r') && AllValid(ids) && AllValid(ids')
    ensures BuildRoute(spell, r, ids) == BuildRoute(spell, r', ids') <==> Coincide(spell, r, ids, r', ids')
  {
    ShadowTemplates(r, r');
    TemplateHasParams(r');
    FrontHasParams(Front(r'), OutlineOf(r').last.word, |ids'|);
    SameFront(spell, Front(r'), ids, OutlineOf(r').last.word, ids');
  }

  lemma FillAgrees(spell: Spelling, t: seq<Segment>, ids: seq<Bytes>, t': seq<Segment>, ids': seq<Bytes>, i: nat)
    requires IsInjectiveSpelling(spell) && HasParams(t, |ids|) && HasParams(t', |ids'|)
    requires Fill(spell, t, ids) == Fill(spell, t', ids')
    ensures |t| == |t'|
    ensures i < |t| && t[i].Lit? && t'[i].Lit? ==> t[i] == t'[i]
  {
    assert |Fill(spell, t, ids)| == |Fill(spell, t', ids')|;
    if i < |t| && t[i].Lit? && t'[i].Lit? {
      assert Fill(spell, t, ids)[i] == spell(t[i].word) && Fill(spell, t', ids')[i] == spell(t'[i].word);
    }
  }

  lemma FillOutline(spell: Spelling, t: seq<Segment>, ids: seq<Bytes>, o: Outline,
                    t': seq<Segment>, ids': seq<Bytes>, o': Outline)
    requires IsInjectiveSpelling(spell) && HasParams(t, |ids|) && HasParams(t', |ids'|)
    requires Fill(spell, t, ids) == Fill(spell, t', ids') && HasOutline(t, o) && HasOutline(t', o')
    ensures o.len == o'.len && o.third == o'.third && o.fifth == o'.fifth
    ensures o.last.Lit? && o'.last.Lit? ==> o.last == o'.last
  {
    FillAgrees(spell, t, ids, t', ids', 3);
    FillAgrees(spell, t, ids, t', ids', 5);
    FillAgrees(spell, t, ids, t', ids', |t| - 1);
  }

  lemma EqualPathsShadow(spell: Spelling, r: Route, ids: seq<Bytes>, r': Route, ids': seq<Bytes>)
    requires IsPlainSpelling(spell) && IsInjectiveSpelling(spell) && r != r'
    requires |ids| == Arity(r) && |ids'| == Arity(r') && AllValid(ids) && AllValid(ids')
    requires BuildRoute(spell, r, ids) == BuildRoute(spell, r', ids')
    ensures Shadows(r, r') || Shadows(r', r)
  {
    TemplateHasParams(r);
    TemplateHasParams(r');
    RoutesCollideIff(spell, Template(r), ids, Template(r'), ids');
    TemplateHasOutline(r);
    TemplateHasOutline(r');
    FillOutline(spell, Template(r), ids, OutlineOf(r), Template(r'), ids', OutlineOf(r'));
    OutlinesAgree(r, r');
  }

  /**
   Which different routes of the program share a path: exactly a workspace, peer, session,
   message or conclusion whose id is the word in that place of a list, query or upload
   route of the same collection, below the same ids.
   */
  lemma RoutesShareAPathIff(r: Route, ids: seq<Bytes>, r': Route, ids': seq<Bytes>)
    requires r != r' && |ids| == Arity(r) && |ids'| == Arity(r') && AllValid(ids) && AllValid(ids')
    ensures BuildRoute(WordBytes, r, ids) == BuildRoute(WordBytes, r', ids') <==>
            Coincide(WordBytes, r, ids, r', ids') || Coincide(WordBytes, r', ids', r, ids)
  {
    WordBytesIsPlain();
    WordBytesIsInjective();
    ShareIff(WordBytes, r, ids, r', ids');
  }

  lemma ShareIff(spell: Spelling, r: Route, ids: seq<Bytes>, r': Route, ids': seq<Bytes>)
    requires IsPlainSpelling(spell) && IsInjectiveSpelling(spell)
    requires r != r' && |ids| == Arity(r) && |ids'| == Arity(r') && AllValid(ids) && AllValid(ids')
    ensures BuildRoute(spell, r, ids) == BuildRoute(spell, r', ids') <==>
            Coincide(spell, r, ids, r', ids') || Coincide(spell, r', ids', r, ids)
  {
    if BuildRoute(spell, r, ids) == BuildRoute(spell, r', ids') {
      SharesCoincides(spell, r, ids, r', ids');
    } else if Coincide(spell, r, ids, r', ids') {
      CoincideShares(spell, r, ids, r', ids');
    } else if Coincide(spell, r', ids', r, ids) {
      CoincideShares(spell, r', ids', r, ids);
    }
  }

  lemma CoincideShares(spell: Spelling, r: Route, ids: seq<Bytes>, r': Route, ids': seq<Bytes>)
    requires IsPlainSpelling(spell) && Coincide(spell, r, ids, r', ids')
    requires |ids| == Arity(r) && |ids'| == Arity(r') && AllValid(ids) && AllValid(ids')
    ensures BuildRoute(spell, r, ids) == BuildRoute(spell, r', ids')
  {
    ShadowsCoincide(spell, r, ids, r', ids');
  }

  lemma SharesCoincides(spell: Spelling, r: Route, ids: seq<Bytes>, r': Route, ids': seq<Bytes>)
    requires IsPlainSpelling(spell) && IsInjectiveSpelling(spell) && r != r'
    requires |ids| == Arity(r) && |ids'| == Arity(r') && AllValid(ids) && AllValid(ids')
    requires BuildRoute(spell, r, ids) == BuildRoute(spell, r', ids')
    ensures Coincide(spell, r, ids, r', ids') || Coincide(spell, r', ids', r, ids)
  {
    EqualPathsShadow(spell, r, ids, r', ids');
    if Shadows(r, r') {
      ShadowsCoincide(spell, r, ids, r', ids');
    } else {
      ShadowsCoincide(spell, r', ids', r, ids);
    }
  }

  /** So a peer has the path of the peer list exactly if its id is `list`. */
  lemma PeerAndPeersList(ws: Bytes, peer: Bytes)
    requires IsValidId(ws) && IsValidId(peer)
    ensures BuildRoute(WordBytes, Peer, [ws, peer]) == BuildRoute(WordBytes, PeersList, [ws]) <==> peer == WordBytes(LIST)
  {
    WordBytesIsPlain();
    NamedList(WordBytes, Peer, PeersList, ws, peer);
  }

  lemma SessionAndSessionsList(ws: Bytes, session: Bytes)
    requires IsValidId(ws) && IsValidId(session)
    ensures BuildRoute(WordBytes, Session, [ws, session]) == BuildRoute(WordBytes, SessionsList, [ws]) <==>
            session == WordBytes(LIST)
  {
    WordBytesIsPlain();
    NamedList(WordBytes, Session, SessionsList, ws, session);
  }

  lemma NamedList(spell: Spelling, r: Route, r': Route, ws: Bytes, id: Bytes)
    requires IsPlainSpelling(spell) && Shadows(r, r') && Arity(r') == 1 && OutlineOf(r').last == Lit(LIST)
    requires IsValidId(ws) && IsValidId(id)
    ensures Arity(r) == 2
    ensures BuildRoute(spell, r, [ws, id]) == BuildRoute(spell, r', [ws]) <==> id == spell(LIST)
  {
    ShadowTemplates(r, r');
    ShadowsCoincide(spell, r, [ws, id], r', [ws]);
    assert [ws, id][1] == id && [ws] + [spell(LIST)] == [ws, spell(LIST)];
  }

  /** The routes of the program, with the words they are spelled with. */
  lemma EveryRouteIsSafe(r: Route, ids: seq<Bytes>)
    requires |ids| == Arity(r) && BuildRoute(WordBytes, r, ids).Path?
    ensures var path := BuildRoute(WordBytes, r, ids).path;
            && path != [] && path[0] == SLASH
            && SplitPath(path) == Fill(WordBytes, Template(r), ids) && AllSafe(SplitPath(path))
            && RemoveDotSegments(path, []) == path
  {
    WordBytesIsPlain();
    TemplateHasParams(r);
    BuiltPathIsSafe(WordBytes, Template(r), ids);
  }

  /** Parameter `k` stands at position 2 + 2 k, below the two words every template starts with. */
  ghost predicate IdsInOrder(t: seq<Segment>, n: nat) {
    && (forall k :: 0 <= k < n ==> 2 + 2 * k < |t| && t[2 + 2 * k] == Id(k))
    && (forall i :: 0 <= i < |t| && t[i].Id? ==> i == 2 + 2 * t[i].param)
    && |t| >= 2 && t[0] == Lit(V3) && t[1] == Lit(WORKSPACES)
  }

  lemma TemplateIsInOrder(r: Route)
    ensures IdsInOrder(Template(r), Arity(r))
  {
    if Arity(r) < 2 {
      ShortInOrder(r);
    } else if Arity(r) == 2 {
      PairInOrder(r);
    }
  }

  lemma ShortInOrder(r: Route)
    requires Arity(r) < 2
    ensures IdsInOrder(Template(r), Arity(r))
  {
  }

  lemma PairInOrder(r: Route)
    requires Arity(r) == 2
    ensures IdsInOrder(Template(r), Arity(r))
  {
    if r in {Peer, PeerChat, PeerRepresentation, PeerCard, PeerContext, PeerSearch, PeerSessionsList} {
      PeerInOrder(r);
    } else if r in {Session, SessionClone, SessionContext, SessionSummaries, SessionSearch, SessionPeers} {
      SessionInOrder(r);
    } else {
      MessagesInOrder(r);
    }
  }

  lemma PeerInOrder(r: Route)
    requires r in {Peer, PeerChat, PeerRepresentation, PeerCard, PeerContext, PeerSearch, PeerSessionsList}
    ensures IdsInOrder(Template(r), 2)
  {
  }

  lemma SessionInOrder(r: Route)
    requires r in {Session, SessionClone, SessionContext, SessionSummaries, SessionSearch, SessionPeers}
    ensures IdsInOrder(Template(r), 2)
  {
    if r.Session? {
      assert Template(r) == WS + [Id(0), Lit(SESSIONS), Id(1)];
    } else {
      var last := OutlineOf(r).last;
      assert Template(r) == WS + [Id(0), Lit(SESSIONS), Id(1), last];
    }
  }

  lemma MessagesInOrder(r: Route)
    requires r in {Messages, MessagesList, MessagesUpload, Conclusion}
    ensures IdsInOrder(Template(r), 2)
  {
  }

  /** The ids, in their order, are what the segments at their positions decode to. */
  ghost predicate IdsReadAs(segments: seq<Bytes>, ids: seq<Bytes>) {
    forall k :: 0 <= k < |ids| ==> 2 + 2 * k < |segments| && Decoded(segments[2 + 2 * k]) == Some(ids[k])
  }

  /** The words of the outline stand where they belong. */
  ghost predicate WordsReadAs(spell: Spelling, segments: seq<Bytes>, o: Outline) {
    && |segments| == o.len >= 2 && segments[0] == spell(V3) && segments[1] == spell(WORKSPACES)
    && (|segments| > 3 ==> o.third.Some? && segments[3] == spell(o.third.value))
    && (|segments| > 5 ==> o.fifth.Some? && segments[5] == spell(o.fifth.value))
    && (o.last.Lit? ==> segments[|segments| - 1] == spell(o.last.word))
  }

  lemma IdReadsAs(id: Bytes, segment: Bytes)
    requires segment == Encoded(id)
    ensures Decoded(segment) == Some(id)
  {
    DecodeEncode(id);
  }

  lemma FillIds(spell: Spelling, t: seq<Segment>, ids: seq<Bytes>)
    requires HasParams(t, |ids|) && IdsInOrder(t, |ids|)
    ensures IdsReadAs(Fill(spell, t, ids), ids)
  {
    var segments := Fill(spell, t, ids);
    forall k | 0 <= k < |ids|
      ensures 2 + 2 * k < |segments| && Decoded(segments[2 + 2 * k]) == Some(ids[k])
    {
      assert t[2 + 2 * k] == Id(k);
      IdReadsAs(ids[k], segments[2 + 2 * k]);
    }
  }

  lemma WordAt(spell: Spelling, t: seq<Segment>, ids: seq<Bytes>, i: nat, w: Word)
    requires HasParams(t, |ids|) && i < |t| && t[i] == Lit(w)
    ensures Fill(spell, t, ids)[i] == spell(w)
  {
  }

  lemma FillWords(spell: Spelling, t: seq<Segment>, o: Outline, ids: seq<Bytes>)
    requires HasParams(t, |ids|) && HasOutline(t, o) && IdsInOrder(t, |ids|)
    ensures WordsReadAs(spell, Fill(spell, t, ids), o)
  {
    WordAt(spell, t, ids, 0, V3);
    WordAt(spell, t, ids, 1, WORKSPACES);
    if |t| > 3 {
      WordAt(spell, t, ids, 3, o.third.value);
    }
    if |t| > 5 {
      WordAt(spell, t, ids, 5, o.fifth.value);
    }
    if o.last.Lit? {
      WordAt(spell, t, ids, |t| - 1, o.last.word);
    }
  }

  /**
   The path of every route, read back: splitting it at the slashes and decoding gives the ids
   in the order of the parameters, the first one below `/v3/workspaces`, and the words of the
   route between and after them.
   */
  lemma EveryRouteReadsBack(r: Route, ids: seq<Bytes>)
    requires |ids| == Arity(r) && AllValid(ids)
    ensures var built := BuildRoute(WordBytes, r, ids);
            && built.Path? && built.path != [] && built.path[0] == SLASH
            && IdsReadAs(SplitPath(built.path), ids) && WordsReadAs(WordBytes, SplitPath(built.path), OutlineOf(r))
  {
    WordBytesIsPlain();
    TemplateHasParams(r);
    TemplateHasOutline(r);
    TemplateIsInOrder(r);
    BuiltPathIsSafe(WordBytes, Template(r), ids);
    FillIds(WordBytes, Template(r), ids);
    FillWords(WordBytes, Template(r), OutlineOf(r), ids);
  }

  /** A rejected list of ids is reported by its first id that is not valid. */
  lemma FirstInvalidIsReported(r: Route, ids: seq<Bytes>, i: nat)
    requires |ids| == Arity(r)
    ensures BuildRoute(WordBytes, r, ids) == BadId(i) <==>
            i < |ids| && !IsValidId(ids[i]) && forall j :: 0 <= j < i ==> IsValidId(ids[j])
  {
    var bad := FirstBad(ids);
    if i < |ids| && !IsValidId(ids[i]) && (forall j :: 0 <= j < i ==> IsValidId(ids[j])) {
      assert bad <= i;
      assert bad == i;
    }
  }

  /** And no route confuses two lists of ids. */
  lemma EveryRouteIsInjective(r: Route, ids: seq<Bytes>, ids': seq<Bytes>)
    requires |ids| == Arity(r) && |ids'| == Arity(r)
    ensures BuildRoute(WordBytes, r, ids).Path? <==> AllValid(ids)
    ensures AllValid(ids) && BuildRoute(WordBytes, r, ids) == BuildRoute(WordBytes, r, ids') ==> ids == ids'
  {
    WordBytesIsPlain();
    TemplateHasParams(r);
    BuilderIsInjective(WordBytes, Template(r), ids, ids');
  }
}
