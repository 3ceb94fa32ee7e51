/**
 UTF-8 decoding with replacement, on bytes.

 A Rust `String` is the UTF-8 bytes of its text, so decoded text is kept here as
 bytes too: decoding copies well-formed characters and writes the three bytes of
 U+FFFD for each ill-formed part. Lengths are then the byte lengths the program
 compares, and a position is the byte index the program slices at.
 */
module Utf8 {
  import opened Basics

  const REPLACEMENT: Bytes := [0xEF, 0xBF, 0xBD]

  // ---------------------------------------------------------------------
  // Reference definitions
  // ---------------------------------------------------------------------

  predicate Within(lo: int, b: byte, hi: int) { lo <= b <= hi }

  /** The continuation byte `UTF8-tail` of section 4 of RFC 3629. */
  predicate IsTail(b: byte) { Within(0x80, b, 0xBF) }

  /** One well-formed character: the grammar of section 4 of RFC 3629, rule by rule. */
  predicate IsChar(s: Bytes) {
    || (|s| == 1 && Within(0x00, s[0], 0x7F))
    || (|s| == 2 && Within(0xC2, s[0], 0xDF) && IsTail(s[1]))
    || (|s| == 3 && IsTail(s[2]) && (
          || (s[0] == 0xE0 && Within(0xA0, s[1], 0xBF))
          || (Within(0xE1, s[0], 0xEC) && IsTail(s[1]))
          || (s[0] == 0xED && Within(0x80, s[1], 0x9F))
          || (Within(0xEE, s[0], 0xEF) && IsTail(s[1]))))
    || (|s| == 4 && IsTail(s[2]) && IsTail(s[3]) && (
          || (s[0] == 0xF0 && Within(0x90, s[1], 0xBF))
          || (Within(0xF1, s[0], 0xF3) && IsTail(s[1]))
          || (s[0] == 0xF4 && Within(0x80, s[1], 0x8F))))
  }

  /** `s` is a non-empty proper prefix of some well-formed character. */
  ghost predicate IsPartialChar(s: Bytes) {
    s != [] && exists t: Bytes :: t != [] && IsChar(s + t)
  }

  /** Well-formed text: a concatenation of well-formed characters. */
  ghost predicate WellFormed(s: Bytes) {
    s == [] || exists n :: 0 < n <= |s| && IsChar(s[..n]) && WellFormed(s[n..])
  }

  /**
   `n` is the length of the maximal subpart at the front of `s` ("U+FFFD Substitution
   of Maximal Subparts", section 3.9 of the Unicode Standard): the longest prefix that
   starts some well-formed character, or a single byte when there is none.
   */
  ghost predicate IsMaximalSubpart(s: Bytes, n: nat) {
    && 0 < n <= |s|
    && (n == 1 || IsPartialChar(s[..n]))
    && forall m :: n < m <= |s| ==> !IsPartialChar(s[..m])
  }

  /**
   `out` decodes `s` with replacement: character by character, where a position at
   which no character starts gives one U+FFFD for its whole maximal subpart.
   */
  ghost predicate IsReplacementDecoding(s: Bytes, out: Bytes)
    decreases |s|, 1
  {
    if s == [] then out == []
    else exists n :: 0 < n <= |s| && DecodesFront(s, n, out)
  }

  ghost predicate DecodesFront(s: Bytes, n: nat, out: Bytes)
    requires 0 < n <= |s|
    decreases |s|, 0
  {
    if IsChar(s[..n]) then
      s[..n] <= out && IsReplacementDecoding(s[n..], out[n..])
    else
      && (forall k :: 0 <= k <= |s| ==> !IsChar(s[..k]))
      && IsMaximalSubpart(s, n)
      && REPLACEMENT <= out && IsReplacementDecoding(s[n..], out[3..])
  }

  // ---------------------------------------------------------------------
  // The scanner
  // ---------------------------------------------------------------------

  /** What the front of a non-empty byte string is. */
  datatype Unit =
    | Char(len: nat)   // a well-formed character
    | Bad(len: nat)    // an ill-formed part, to be replaced
    | Incomplete       // everything that is left may still grow into a character

  function Width(lead: byte): nat {
    if lead < 0x80 then 1
    else if Within(0xC2, lead, 0xDF) then 2
    else if Within(0xE0, lead, 0xEF) then 3
    else if Within(0xF0, lead, 0xF4) then 4
    else 0
  }

  predicate SecondOk(lead: byte, b: byte) {
    if lead == 0xE0 then Within(0xA0, b, 0xBF)
    else if lead == 0xED then Within(0x80, b, 0x9F)
    else if lead == 0xF0 then Within(0x90, b, 0xBF)
    else if lead == 0xF4 then Within(0x80, b, 0x8F)
    else IsTail(b)
  }

  function NextUnit(s: Bytes): (u: Unit)
    requires s != []
    ensures u.Char? ==> 0 < u.len <= |s| && u.len <= 4
    ensures u.Bad? ==> 0 < u.len <= |s| && u.len <= 3
    ensures u.Incomplete? ==> |s| <= 3
  {
    var w := Width(s[0]);
    if w == 0 then Bad(1)
    else if w == 1 then Char(1)
    else if |s| < 2 then Incomplete
    else if !SecondOk(s[0], s[1]) then Bad(1)
    else if w == 2 then Char(2)
    else if |s| < 3 then Incomplete
    else if !IsTail(s[2]) then Bad(2)
    else if w == 3 then Char(3)
    else if |s| < 4 then Incomplete
    else if !IsTail(s[3]) then Bad(3)
    else Char(4)
  }

  /** The result of `std::str::from_utf8`: `validUpTo` and `errorLen` as documented there. */
  datatype Validation = Ok | Err(validUpTo: nat, errorLen: Option<nat>)

  function FromUtf8(s: Bytes): (v: Validation)
    ensures v.Err? ==> v.validUpTo <= |s|
    ensures v.Err? && v.errorLen.Some? ==> 0 < v.errorLen.value && v.validUpTo + v.errorLen.value <= |s|
  {
    if s == [] then Ok
    else match NextUnit(s)
      case Bad(n) => Err(0, Some(n))
      case Incomplete => Err(0, None)
      case Char(n) =>
        match FromUtf8(s[n..])
        case Ok => Ok
        case Err(v, e) => Err(n + v, e)
  }

  // ---------------------------------------------------------------------
  // Decoding a prefix of a stream
  // ---------------------------------------------------------------------

  /** The text that is settled once `s` has arrived, whatever follows. */
  function Text(s: Bytes): Bytes {
    if s == [] then []
    else match NextUnit(s)
      case Char(n) => s[..n] + Text(s[n..])
      case Bad(n) => REPLACEMENT + Text(s[n..])
      case Incomplete => []
  }

  /** The bytes of `s` that are not settled yet. */
  function Tail(s: Bytes): (r: Bytes)
    ensures |r| <= 3
  {
    if s == [] then []
    else match NextUnit(s)
      case Char(n) => Tail(s[n..])
      case Bad(n) => Tail(s[n..])
      case Incomplete => s
  }

  /** `String::from_utf8_lossy`: a tail that is cut short is replaced too. */
  function Lossy(s: Bytes): Bytes {
    if s == [] then []
    else match NextUnit(s)
      case Char(n) => s[..n] + Lossy(s[n..])
      case Bad(n) => REPLACEMENT + Lossy(s[n..])
      case Incomplete => REPLACEMENT
  }

  // ---------------------------------------------------------------------
  // The scanner meets the reference definitions
  // ---------------------------------------------------------------------

  /** Some way to complete a character whose bytes so far are acceptable. */
  function Completion(s: Bytes): Bytes
    requires s != []
  {
    if |s| == 1 then
      (if s[0] == 0xE0 then [0xA0] else if s[0] == 0xF0 then [0x90] else [0x80])
      + (if Width(s[0]) == 3 then [0x80] else if Width(s[0]) == 4 then [0x80, 0x80] else [])
    else if |s| == 2 && Width(s[0]) == 4 then [0x80, 0x80]
    else [0x80]
  }

  lemma PartialCharIffIncomplete(s: Bytes)
    requires s != []
    ensures IsPartialChar(s) <==> NextUnit(s) == Incomplete
  {
    if NextUnit(s) == Incomplete {
      assert IsChar(s + Completion(s));
    }
    if IsPartialChar(s) {
      var t :| t != [] && IsChar(s + t);
      var whole := s + t;
      assert whole[0] == s[0] && (|s| > 1 ==> whole[1] == s[1]) && (|s| > 2 ==> whole[2] == s[2]);
    }
  }

  /** A unit is a character exactly when the grammar says so; it is the only one there. */
  lemma NextUnitChar(s: Bytes, n: nat)
    requires s != [] && n <= |s|
    ensures NextUnit(s) == Char(n) <==> IsChar(s[..n])
  {
  }

  /**
   The scanner classifies the front of every byte string as the Unicode Standard does:
   a character of the grammar, a string that is all one unfinished character, or an
   ill-formed part whose extent is the maximal subpart.
   */
  lemma NextUnitIsMaximalSubpart(s: Bytes)
    requires s != []
    ensures match NextUnit(s)
            case Char(n) => IsChar(s[..n])
            case Incomplete => IsPartialChar(s)
            case Bad(n) => IsMaximalSubpart(s, n) && !IsPartialChar(s) && forall k :: 0 <= k <= |s| ==> !IsChar(s[..k])
  {
    PartialCharIffIncomplete(s);
    forall k: nat | k <= |s|
      ensures NextUnit(s) == Char(k) <==> IsChar(s[..k])
    {
      NextUnitChar(s, k);
    }
    if NextUnit(s).Bad? {
      forall m | 0 < m <= |s|
        ensures IsPartialChar(s[..m]) <==> NextUnit(s[..m]) == Incomplete
      {
        PartialCharIffIncomplete(s[..m]);
      }
    }
  }

  /** `Lossy` is the one decoding the Unicode Standard's rule allows. */
  lemma {:induction false} LossyIsReplacementDecoding(s: Bytes, out: Bytes)
    ensures IsReplacementDecoding(s, out) <==> out == Lossy(s)
    decreases |s|
  {
    if s != [] {
      var m, piece := FrontOf(s);
      forall n | 0 < n <= |s|
        ensures DecodesFront(s, n, out) <==> n == m && piece <= out && IsReplacementDecoding(s[m..], out[|piece|..])
      {
        FrontIsForced(s, n, out, m, piece);
      }
      if piece <= out {
        LossyIsReplacementDecoding(s[m..], out[|piece|..]);
        assert out == piece + out[|piece|..];
        assert IsReplacementDecoding(s, out) <==> DecodesFront(s, m, out);
      }
      assert out == Lossy(s) ==> piece <= out && out[|piece|..] == Lossy(s[m..]);
    }
  }

  /** How many bytes the front of `s` takes, and what they decode to. */
  lemma {:induction false} FrontOf(s: Bytes) returns (m: nat, piece: Bytes)
    requires s != []
    ensures 0 < m <= |s| && Lossy(s) == piece + Lossy(s[m..])
    ensures if IsChar(s[..m]) then piece == s[..m]
            else piece == REPLACEMENT && IsMaximalSubpart(s, m) && forall k :: 0 <= k <= |s| ==> !IsChar(s[..k])
  {
    NextUnitIsMaximalSubpart(s);
    if NextUnit(s).Incomplete? {
      m, piece := |s|, REPLACEMENT;
      assert s[..|s|] == s;
      forall k: nat | k <= |s| ensures !IsChar(s[..k]) { NextUnitChar(s, k); }
    } else {
      m := NextUnit(s).len;
      piece := if NextUnit(s).Char? then s[..m] else REPLACEMENT;
    }
  }

  lemma FrontIsForced(s: Bytes, n: nat, out: Bytes, m: nat, piece: Bytes)
    requires 0 < n <= |s| && 0 < m <= |s|
    requires if IsChar(s[..m]) then piece == s[..m]
             else piece == REPLACEMENT && IsMaximalSubpart(s, m) && forall k :: 0 <= k <= |s| ==> !IsChar(s[..k])
    ensures DecodesFront(s, n, out) <==> n == m && piece <= out && IsReplacementDecoding(s[m..], out[|piece|..])
  {
  }

  /** A unit that is settled does not change when more bytes arrive. */
  lemma NextUnitStable(s: Bytes, more: Bytes)
    requires s != [] && !NextUnit(s).Incomplete?
    ensures NextUnit(s + more) == NextUnit(s)
  {
  }

  // ---------------------------------------------------------------------
  // Cutting the byte stream anywhere does not change the text
  // ---------------------------------------------------------------------

  /** One settled unit at the front of `a`, peeled off `a + b`. */
  lemma PeelUnit(a: Bytes, b: Bytes)
    requires a != [] && !NextUnit(a).Incomplete?
    ensures var n := NextUnit(a).len;
            var piece := if NextUnit(a).Char? then a[..n] else REPLACEMENT;
            && Text(a) == piece + Text(a[n..]) && Tail(a) == Tail(a[n..])
            && Text(a + b) == piece + Text(a[n..] + b) && Tail(a + b) == Tail(a[n..] + b)
            && Lossy(a + b) == piece + Lossy(a[n..] + b)
  {
    NextUnitStable(a, b);
    var n := NextUnit(a).len;
    assert (a + b)[n..] == a[n..] + b && (a + b)[..n] == a[..n];
  }

  lemma {:induction false} DecodeInPieces(a: Bytes, b: Bytes)
    ensures Text(a + b) == Text(a) + Text(Tail(a) + b)
    ensures Tail(a + b) == Tail(Tail(a) + b)
    ensures Lossy(a + b) == Text(a) + Lossy(Tail(a) + b)
  {
    if a == [] {
      assert a + b == b == Tail(a) + b;
    } else if NextUnit(a).Incomplete? {
      assert Tail(a) == a && Text(a) == [];
    } else {
      PeelUnit(a, b);
      var n := NextUnit(a).len;
      var piece := if NextUnit(a).Char? then a[..n] else REPLACEMENT;
      DecodeInPieces(a[n..], b);
      Associate(piece, Text(a[n..]), Text(Tail(a) + b));
      Associate(piece, Text(a[n..]), Lossy(Tail(a) + b));
    }
  }

  /** Flushing the unsettled tail gives the one-shot decoding. */
  lemma {:induction false} LossyIsTextThenFlush(s: Bytes)
    ensures Lossy(s) == Text(s) + Lossy(Tail(s))
    ensures Lossy(Tail(s)) == if Tail(s) == [] then [] else REPLACEMENT
  {
    DecodeInPieces(s, []);
    assert s + [] == s && Tail(s) + [] == Tail(s);
    TailIsPartialChar(s);
    if Tail(s) != [] {
      PartialCharIffIncomplete(Tail(s));
    }
  }

  lemma {:induction false} TailIsPartialChar(s: Bytes)
    ensures Tail(s) == [] || IsPartialChar(Tail(s))
  {
    if s != [] {
      if NextUnit(s).Incomplete? {
        PartialCharIffIncomplete(s);
      } else {
        TailIsPartialChar(s[NextUnit(s).len..]);
      }
    }
  }

  /** The text that one report of `from_utf8` settles, and the bytes it leaves to look at. */
  function Emitted(v: Validation, s: Bytes): Bytes
    requires v.Err? ==> v.validUpTo <= |s|
  {
    match v
    case Ok => s
    case Err(k, None) => s[..k]
    case Err(k, Some(_)) => s[..k] + REPLACEMENT
  }

  function Remains(v: Validation, s: Bytes): Bytes
    requires v.Err? ==> v.validUpTo + (if v.errorLen.Some? then v.errorLen.value else 0) <= |s|
  {
    match v
    case Ok => []
    case Err(k, None) => s[k..]
    case Err(k, Some(n)) => s[k + n..]
  }

  /** What a report means: the valid part and a replaced error are settled text. */
  lemma {:induction false} FromUtf8Meaning(s: Bytes)
    ensures Text(s) == Emitted(FromUtf8(s), s) + Text(Remains(FromUtf8(s), s))
  {
    if s != [] && NextUnit(s).Char? {
      var n := NextUnit(s).len;
      var v := FromUtf8(s[n..]);
      FromUtf8Meaning(s[n..]);
      ReportAfter(v, s, n);
      TextStep(s);
      Associate(s[..n], Emitted(v, s[n..]), Text(Remains(v, s[n..])));
    } else if s != [] && NextUnit(s).Bad? {
      TextStep(s);
      assert Emitted(FromUtf8(s), s) == REPLACEMENT;
    } else {
      assert Emitted(FromUtf8(s), s) == [] && Remains(FromUtf8(s), s) == s;
    }
  }

  lemma TextStep(s: Bytes)
    requires s != [] && !NextUnit(s).Incomplete?
    ensures Text(s) == (if NextUnit(s).Char? then s[..NextUnit(s).len] else REPLACEMENT) + Text(s[NextUnit(s).len..])
  {
  }

  /** What is left unsettled is the same before and after the part reported. */
  lemma {:induction false} FromUtf8Tail(s: Bytes)
    ensures Tail(s) == Tail(Remains(FromUtf8(s), s))
  {
    if s != [] && NextUnit(s).Char? {
      var n := NextUnit(s).len;
      FromUtf8Tail(s[n..]);
      ReportAfter(FromUtf8(s[n..]), s, n);
      TailStep(s);
    } else if s != [] && NextUnit(s).Bad? {
      TailStep(s);
    } else {
      assert Remains(FromUtf8(s), s) == s;
    }
  }

  lemma TailStep(s: Bytes)
    requires s != [] && !NextUnit(s).Incomplete?
    ensures Tail(s) == Tail(s[NextUnit(s).len..])
  {
  }

  /** A report without an error length leaves one unfinished character. */
  lemma {:induction false} OpenEnd(s: Bytes)
    requires FromUtf8(s).Err? && FromUtf8(s).errorLen.None?
    ensures var r := Remains(FromUtf8(s), s); r != [] && NextUnit(r) == Incomplete
  {
    if NextUnit(s).Char? {
      var n := NextUnit(s).len;
      OpenEnd(s[n..]);
      ReportAfter(FromUtf8(s[n..]), s, n);
    } else {
      assert s[0..] == s;
    }
  }

  /** The part reported valid is valid on its own: decoding it again cannot fail. */
  lemma {:induction false} ValidPartIsValid(s: Bytes)
    ensures FromUtf8(s).Err? ==> FromUtf8(s[..FromUtf8(s).validUpTo]) == Ok
  {
    if s != [] && NextUnit(s).Char? && FromUtf8(s).Err? {
      var n, k := NextUnit(s).len, FromUtf8(s).validUpTo;
      ValidPartIsValid(s[n..]);
      NextUnitPrefix(s, k);
      assert s[..k][n..] == s[n..][..k - n];
    }
  }

  lemma {:induction false} ReportAfter(v: Validation, s: Bytes, n: nat)
    requires n <= |s|
    requires v.Err? ==> v.validUpTo + (if v.errorLen.Some? then v.errorLen.value else 0) <= |s| - n
    ensures var w := match v { case Ok => Ok case Err(k, e) => Err(n + k, e) };
            Emitted(w, s) == s[..n] + Emitted(v, s[n..]) && Remains(w, s) == Remains(v, s[n..])
  {
    match v
    case Ok =>
    case Err(k, None) => TakeAfter(s, n, k, k);
    case Err(k, Some(m)) =>
      TakeAfter(s, n, k, k + m);
      Associate(s[..n], s[n..][..k], REPLACEMENT);
  }

  lemma TakeAfter(s: Bytes, n: nat, k: nat, j: nat)
    requires n + k <= |s| && n + j <= |s|
    ensures s[..n] + s[n..][..k] == s[..n + k] && s[n..][j..] == s[n + j..]
  {
  }

  lemma NextUnitPrefix(s: Bytes, k: nat)
    requires s != [] && NextUnit(s).Char? && NextUnit(s).len <= k <= |s|
    ensures NextUnit(s[..k]) == NextUnit(s)
  {
  }

  // ---------------------------------------------------------------------
  // Well-formed text
  // ---------------------------------------------------------------------

  /** `from_utf8` accepts exactly the well-formed byte strings. */
  lemma {:induction false} FromUtf8AcceptsWellFormed(s: Bytes)
    ensures FromUtf8(s) == Ok <==> WellFormed(s)
  {
    if s != [] {
      if NextUnit(s).Char? {
        var n := NextUnit(s).len;
        FromUtf8AcceptsWellFormed(s[n..]);
        NextUnitChar(s, n);
      }
      if WellFormed(s) {
        var n :| 0 < n <= |s| && IsChar(s[..n]) && WellFormed(s[n..]);
        NextUnitChar(s, n);
      }
    }
  }

  lemma WellFormedCons(c: Bytes, rest: Bytes)
    requires IsChar(c) && WellFormed(rest)
    ensures WellFormed(c + rest)
  {
    assert (c + rest)[..|c|] == c && (c + rest)[|c|..] == rest;
  }

  lemma FirstChar(s: Bytes) returns (c: Bytes, rest: Bytes)
    requires WellFormed(s) && s != []
    ensures c != [] && IsChar(c) && WellFormed(rest) && s == c + rest
  {
    var n :| 0 < n <= |s| && IsChar(s[..n]) && WellFormed(s[n..]);
    c, rest := s[..n], s[n..];
  }

  lemma {:induction false} WellFormedConcat(a: Bytes, b: Bytes)
    requires WellFormed(a) && WellFormed(b)
    ensures WellFormed(a + b)
  {
    if a == [] {
      assert a + b == b;
    } else {
      var c, rest := FirstChar(a);
      WellFormedConcat(rest, b);
      WellFormedCons(c, rest + b);
      Associate(c, rest, b);
    }
  }

  /** Decoding always yields well-formed text: the buffer stays a valid `String`. */
  lemma {:induction false} TextIsWellFormed(s: Bytes)
    ensures WellFormed(Text(s)) && WellFormed(Lossy(s))
  {
    WellFormedCons(REPLACEMENT, []);
    assert REPLACEMENT + [] == REPLACEMENT;
    if s != [] && !NextUnit(s).Incomplete? {
      var n := NextUnit(s).len;
      var piece := if NextUnit(s).Char? then s[..n] else REPLACEMENT;
      assert IsChar(piece) by { NextUnitChar(s, n); }
      TextIsWellFormed(s[n..]);
      WellFormedCons(piece, Text(s[n..]));
      WellFormedCons(piece, Lossy(s[n..]));
    }
  }

  /** Replacement touches ill-formed input only. */
  lemma {:induction false} WellFormedIsUnchanged(s: Bytes)
    requires WellFormed(s)
    ensures Text(s) == s && Tail(s) == [] && Lossy(s) == s
  {
    FromUtf8AcceptsWellFormed(s);
    FromUtf8Meaning(s);
    FromUtf8Tail(s);
    LossyIsTextThenFlush(s);
  }

  /** Text may be cut on either side of an ASCII byte: both positions are character boundaries. */
  lemma {:induction false} WellFormedAroundAscii(s: Bytes, i: nat)
    requires WellFormed(s) && i < |s| && s[i] < 0x80
    ensures WellFormed(s[..i]) && WellFormed(s[i + 1..])
    decreases |s|
  {
    var c, rest := FirstChar(s);
    assert |rest| < |s|;
    if i < |c| {
      AsciiIsAlone(c, i);
      assert s[..0] == [] && s[1..] == rest;
    } else {
      CutAfter(s, c, rest, i);
      WellFormedAroundAscii(rest, i - |c|);
      WellFormedCons(c, rest[..i - |c|]);
    }
  }

  lemma CutAfter(s: Bytes, c: Bytes, rest: Bytes, i: nat)
    requires s == c + rest && |c| <= i < |s|
    ensures s[..i] == c + rest[..i - |c|] && s[i] == rest[i - |c|] && s[i + 1..] == rest[i - |c| + 1..]
  {
  }

  lemma AsciiIsAlone(c: Bytes, i: nat)
    requires IsChar(c) && i < |c| && c[i] < 0x80
    ensures |c| == 1
  {
  }
}
