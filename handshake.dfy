/**
 * The handshake parser of src/main.rs: `parse_handshake` decodes the whole
 * receive buffer as UTF-8 and runs the `scan!` macro over it, which advances a
 * `str::split(char::is_whitespace)` iterator three times. Every whitespace
 * character ends a piece, so a run of whitespace yields empty pieces, and a
 * missing piece makes one of the three `unwrap` calls panic.
 */
module Handshake {
  import opened Wrappers
  import opened Utf8

  /** `char::is_whitespace`: the characters with the Unicode White_Space property. */
  predicate IsWhitespace(c: char): (r: bool)
    ensures c as int < 0x80 ==> (r <==> c in "\t\n\U{000B}\U{000C}\r ")
    ensures r ==> c as int <= 0x3000
  {
    var x := c as int;
    (0x09 <= x <= 0x0D) || x == 0x20 || x == 0x85 || x == 0xA0 || x == 0x1680
    || (0x2000 <= x <= 0x200A) || x == 0x2028 || x == 0x2029 || x == 0x202F
    || x == 0x205F || x == 0x3000
  }

  predicate NoWhitespace(s: string) {
    forall i :: 0 <= i < |s| ==> !IsWhitespace(s[i])
  }

  predicate AllWhitespace(s: string) {
    forall i :: 0 <= i < |s| ==> IsWhitespace(s[i])
  }

  /** Where the split searcher finds the next separator: the first whitespace index, or |s| if none. */
  function FirstWhitespace(s: string): (i: nat)
    ensures i <= |s|
    ensures NoWhitespace(s[..i])
    ensures i < |s| ==> IsWhitespace(s[i])
  {
    if s == [] then 0
    else if IsWhitespace(s[0]) then 0
    else
      var j := FirstWhitespace(s[1..]);
      assert s[..1 + j] == [s[0]] + s[1..][..j];
      1 + j
  }

  lemma FirstWhitespaceOf(p: string, rest: string)
    requires NoWhitespace(p)
    requires rest == [] || IsWhitespace(rest[0])
    ensures FirstWhitespace(p + rest) == |p|
  {
    var s := p + rest;
    assert s[..|p|] == p;
  }

  // ---------------------------------------------------------------------
  // The reference split: every piece of `s`, and the separators between them.

  /** All pieces `str::split(char::is_whitespace)` yields, in order. */
  function Pieces(s: string): seq<string>
    decreases |s|
  {
    var i := FirstWhitespace(s);
    if i == |s| then [s] else [s[..i]] + Pieces(s[i + 1..])
  }

  /** The whitespace characters of `s`, in order: the separators between the pieces. */
  function Separators(s: string): string
    decreases |s|
  {
    var i := FirstWhitespace(s);
    if i == |s| then [] else [s[i]] + Separators(s[i + 1..])
  }

  /** Puts pieces back together, with one separator between consecutive pieces. */
  function Join(ps: seq<string>, ws: string): string
    requires |ps| == |ws| + 1
  {
    if ws == [] then ps[0] else ps[0] + [ws[0]] + Join(ps[1..], ws[1..])
  }

  /** A string with k separators has k + 1 pieces; in particular there is always a first piece. */
  lemma {:induction false} PiecesCount(s: string)
    ensures |Pieces(s)| == |Separators(s)| + 1
    decreases |s|
  {
    var i := FirstWhitespace(s);
    if i < |s| {
      PiecesCount(s[i + 1..]);
    }
  }

  /** No piece contains a whitespace character, and every separator is one. */
  lemma {:induction false} PiecesShape(s: string)
    ensures forall k :: 0 <= k < |Pieces(s)| ==> NoWhitespace(Pieces(s)[k])
    ensures AllWhitespace(Separators(s))
    decreases |s|
  {
    var i := FirstWhitespace(s);
    if i < |s| {
      PiecesShape(s[i + 1..]);
      forall k | 0 <= k < |Pieces(s)| ensures NoWhitespace(Pieces(s)[k]) {
        if k > 0 {
          assert Pieces(s)[k] == Pieces(s[i + 1..])[k - 1];
        }
      }
    }
  }

  /** Splitting loses nothing: the pieces and separators put back together give the line. */
  lemma {:induction false} SplitJoin(s: string)
    ensures |Pieces(s)| == |Separators(s)| + 1
    ensures Join(Pieces(s), Separators(s)) == s
    decreases |s|
  {
    PiecesCount(s);
    var i := FirstWhitespace(s);
    if i < |s| {
      SplitJoin(s[i + 1..]);
      assert Pieces(s)[1..] == Pieces(s[i + 1..]);
      assert s == s[..i] + [s[i]] + s[i + 1..];
    }
  }

  /** Joining whitespace-free pieces with whitespace separators is undone by splitting. */
  lemma {:induction false} JoinSplit(ps: seq<string>, ws: string)
    requires |ps| == |ws| + 1
    requires forall k :: 0 <= k < |ps| ==> NoWhitespace(ps[k])
    requires AllWhitespace(ws)
    ensures Pieces(Join(ps, ws)) == ps
    ensures Separators(Join(ps, ws)) == ws
    decreases |ws|
  {
    if ws == [] {
      FirstWhitespaceOf(ps[0], []);
      assert ps[0] + [] == ps[0];
    } else {
      var tail := Join(ps[1..], ws[1..]);
      JoinStep(ps, ws);
      PiecesOfCons(ps[0], ws[0], tail);
      SeparatorsOfCons(ps[0], ws[0], tail);
      JoinSplit(ps[1..], ws[1..]);
      assert ps == [ps[0]] + ps[1..];
      assert ws == [ws[0]] + ws[1..];
    }
  }

  // ---------------------------------------------------------------------
  // The split iterator, advanced one `next()` at a time.

  /** The state of a `Split` iterator: the text not yet searched, and whether it is finished. */
  datatype SplitIter = SplitIter(rest: string, finished: bool)

  function SplitOn(s: string): SplitIter {
    SplitIter(s, false)
  }

  /** `Split::next`: the text up to the next separator, or the tail once, then nothing. */
  function Next(it: SplitIter): (r: (SplitIter, Option<string>))
    ensures it.finished ==> r.1.None? && r.0.finished
    ensures !it.finished ==> r.1.Some? && NoWhitespace(r.1.value)
    ensures !it.finished && r.0.finished ==> r.1.value == it.rest
    ensures !it.finished && !r.0.finished ==>
      var w := r.1.value;
      |w| < |it.rest| && IsWhitespace(it.rest[|w|]) && it.rest == w + [it.rest[|w|]] + r.0.rest
  {
    if it.finished then (it, None)
    else
      var i := FirstWhitespace(it.rest);
      if i < |it.rest| then (SplitIter(it.rest[i + 1..], false), Some(it.rest[..i]))
      else (SplitIter([], true), Some(it.rest))
  }

  /** The pieces an iterator has yet to yield. */
  function Remaining(it: SplitIter): seq<string> {
    if it.finished then [] else Pieces(it.rest)
  }

  /** Each `next()` yields the first remaining piece, if any, and drops it from what remains. */
  lemma NextYieldsPieces(it: SplitIter)
    ensures var (it', x) := Next(it);
      && (x == if Remaining(it) == [] then None else Some(Remaining(it)[0]))
      && Remaining(it') == if Remaining(it) == [] then [] else Remaining(it)[1..]
  {
  }

  /** The k-th piece as `iter.next()` would hand it to `scan!`, or None past the end. */
  function PieceAt(ps: seq<string>, k: nat): Option<string> {
    if k < |ps| then Some(ps[k]) else None
  }

  /** `word.parse::<String>()`: parsing a `String` from a `str` cannot fail. */
  function ParseToken(word: string): (r: Option<string>)
    ensures r.Some? && r.value == word
  {
    Some(word)
  }

  function AndThenParse(x: Option<string>): (r: Option<string>)
    ensures r == x
  {
    match x
    case None => None
    case Some(word) => ParseToken(word)
  }

  /** `scan!(line, char::is_whitespace, String, String, String)`: three `next()` calls. */
  function Scan3(line: string): (r: (Option<string>, Option<string>, Option<string>))
    ensures r.0.Some? && NoWhitespace(r.0.value)
    ensures r.1.Some? ==> NoWhitespace(r.1.value)
    ensures r.2.Some? ==> r.1.Some? && NoWhitespace(r.2.value)
  {
    var (it1, a) := Next(SplitOn(line));
    var (it2, b) := Next(it1);
    var (_, c) := Next(it2);
    (AndThenParse(a), AndThenParse(b), AndThenParse(c))
  }

  /** `scan!` yields exactly the first three pieces of the split, None where there is none. */
  lemma ScanIsFirstPieces(line: string)
    ensures var ps := Pieces(line);
      Scan3(line) == (PieceAt(ps, 0), PieceAt(ps, 1), PieceAt(ps, 2))
  {
    var it0 := SplitOn(line);
    NextYieldsPieces(it0);
    var it1 := Next(it0).0;
    NextYieldsPieces(it1);
    var it2 := Next(it1).0;
    NextYieldsPieces(it2);
    var ps := Pieces(line);
    PiecesCount(line);
    if |ps| > 1 {
      assert Remaining(it1) == ps[1..];
      if |ps| > 2 {
        assert Remaining(it2) == ps[2..];
      }
    }
  }

  // ---------------------------------------------------------------------
  // parse_handshake

  /** The three tokens; `verb` is the request method (`method` is a Dafny keyword). */
  datatype Handshake = Handshake(verb: string, target: string, protocol: string)

  /** Which `unwrap` of `parse_handshake` panics. */
  datatype ParseError = InvalidUtf8 | MissingMethod | MissingTarget | MissingProtocol

  /** The three `unwrap`s of line 20, evaluated left to right. */
  function ParseLine(line: string): (r: Result<Handshake, ParseError>)
    ensures r.Err? ==> r.error == MissingTarget || r.error == MissingProtocol
    ensures r.Ok? ==> NoWhitespace(r.value.verb) && NoWhitespace(r.value.target) && NoWhitespace(r.value.protocol)
  {
    var (m, t, p) := Scan3(line);
    if m.None? then Err(MissingMethod)
    else if t.None? then Err(MissingTarget)
    else if p.None? then Err(MissingProtocol)
    else Ok(Handshake(m.value, t.value, p.value))
  }

  /** `parse_handshake`: decode the whole buffer, then scan the text. */
  function ParseHandshake(buf: seq<byte>): (r: Result<Handshake, ParseError>)
    ensures r == Err(InvalidUtf8) <==> DecodeUtf8(buf).None?
    ensures r.Ok? ==> NoWhitespace(r.value.verb) && NoWhitespace(r.value.target) && NoWhitespace(r.value.protocol)
  {
    match DecodeUtf8(buf)
    case None => Err(InvalidUtf8)
    case Some(line) => ParseLine(line)
  }

  /** The line parses exactly when it has at least two separators; with fewer, the missing token is reported and nothing is filled in. */
  lemma ParseLineOutcome(line: string)
    ensures var ps := Pieces(line);
      ParseLine(line) ==
        if |ps| >= 3 then Ok(Handshake(ps[0], ps[1], ps[2]))
        else if |ps| == 2 then Err(MissingProtocol)
        else Err(MissingTarget)
    ensures ParseLine(line).Ok? <==> |Separators(line)| >= 2
    ensures ParseLine(line) != Err(MissingMethod) && ParseLine(line) != Err(InvalidUtf8)
  {
    ScanIsFirstPieces(line);
    PiecesCount(line);
  }

  lemma PiecesOfCons(x: string, w: char, rest: string)
    requires NoWhitespace(x) && IsWhitespace(w)
    ensures Pieces(x + [w] + rest) == [x] + Pieces(rest)
  {
    var s := x + [w] + rest;
    assert s == x + ([w] + rest);
    FirstWhitespaceOf(x, [w] + rest);
    assert s[..|x|] == x;
    assert s[|x| + 1..] == rest;
  }

  lemma SeparatorsOfCons(x: string, w: char, rest: string)
    requires NoWhitespace(x) && IsWhitespace(w)
    ensures Separators(x + [w] + rest) == [w] + Separators(rest)
  {
    var s := x + [w] + rest;
    assert s == x + ([w] + rest);
    FirstWhitespaceOf(x, [w] + rest);
    assert s[|x|] == w;
    assert s[|x| + 1..] == rest;
  }

  lemma PiecesOfLast(x: string, tail: string)
    requires NoWhitespace(x)
    requires tail == [] || IsWhitespace(tail[0])
    ensures Pieces(x + tail)[0] == x
  {
    FirstWhitespaceOf(x, tail);
    assert (x + tail)[..|x|] == x;
  }

  /** What follows the first piece in a join: nothing, or the first separator and the rest. */
  function JoinTail(ps: seq<string>, ws: string): (r: string)
    requires |ps| == |ws| + 1
    ensures Join(ps, ws) == ps[0] + r
    ensures r == [] <==> ws == []
    ensures r != [] ==> r[0] == ws[0]
  {
    if ws == [] then [] else [ws[0]] + Join(ps[1..], ws[1..])
  }

  lemma JoinStep(ps: seq<string>, ws: string)
    requires |ps| == |ws| + 1 && |ws| >= 1
    ensures Join(ps, ws) == ps[0] + [ws[0]] + Join(ps[1..], ws[1..])
  {
  }

  lemma JoinThree(ps: seq<string>, ws: string)
    requires |ps| == |ws| + 1 && |ws| >= 2
    ensures Join(ps, ws) == ps[0] + [ws[0]] + ps[1] + [ws[1]] + ps[2] + JoinTail(ps[2..], ws[2..])
  {
    var ps1, ws1 := ps[1..], ws[1..];
    var ps2, ws2 := ps[2..], ws[2..];
    assert ps1[1..] == ps2 && ws1[1..] == ws2;
    var x0, x1, x2, c0, c1 := ps[0], ps[1], ps[2], [ws[0]], [ws[1]];
    var tail := JoinTail(ps2, ws2);
    var j2 := Join(ps2, ws2);
    assert j2 == x2 + tail;
    JoinStep(ps1, ws1);
    var j1 := Join(ps1, ws1);
    assert j1 == x1 + c1 + j2;
    JoinStep(ps, ws);
    assert Join(ps, ws) == x0 + c0 + j1;
    Regroup(x0, c0, x1, c1, x2, tail);
  }

  lemma Regroup(x0: string, c0: string, x1: string, c1: string, x2: string, tail: string)
    ensures x0 + c0 + (x1 + c1 + (x2 + tail)) == x0 + c0 + x1 + c1 + x2 + tail
  {
  }

  /** The first three pieces and the two separators between them lie at the front of the line. */
  lemma LeadingPieces(line: string)
    requires |Pieces(line)| >= 3
    ensures var ps := Pieces(line);
      var m, t, p := ps[0], ps[1], ps[2];
      var k := |m| + 1 + |t| + 1 + |p|;
      && NoWhitespace(m) && NoWhitespace(t) && NoWhitespace(p)
      && k <= |line|
      && IsWhitespace(line[|m|]) && IsWhitespace(line[|m| + 1 + |t|])
      && (k == |line| || IsWhitespace(line[k]))
      && line == m + [line[|m|]] + t + [line[|m| + 1 + |t|]] + p + line[k..]
  {
    SplitJoin(line);
    PiecesShape(line);
    var ps, ws := Pieces(line), Separators(line);
    JoinThree(ps, ws);
    var m, t, p := ps[0], ps[1], ps[2];
    var tail := JoinTail(ps[2..], ws[2..]);
    assert line == m + [ws[0]] + t + [ws[1]] + p + tail;
    var k := |m| + 1 + |t| + 1 + |p|;
    assert line[|m|] == ws[0];
    assert line[|m| + 1 + |t|] == ws[1];
    assert line[k..] == tail;
  }

  /**
   * What a parsed handshake says about the line: the tokens are free of
   * whitespace, and the line is method, separator, target, separator,
   * protocol, then the end of the line or a further separator and the rest.
   */
  lemma ParsedLineShape(line: string)
    requires ParseLine(line).Ok?
    ensures var h := ParseLine(line).value;
      var m, t, p := h.verb, h.target, h.protocol;
      var k := |m| + 1 + |t| + 1 + |p|;
      && NoWhitespace(m) && NoWhitespace(t) && NoWhitespace(p)
      && k <= |line|
      && IsWhitespace(line[|m|]) && IsWhitespace(line[|m| + 1 + |t|])
      && (k == |line| || IsWhitespace(line[k]))
      && line == m + [line[|m|]] + t + [line[|m| + 1 + |t|]] + p + line[k..]
  {
    ParseLineOutcome(line);
    LeadingPieces(line);
  }

  lemma PiecesOfShape(line: string, m: string, w1: char, t: string, w2: char, p: string, tail: string)
    requires NoWhitespace(m) && NoWhitespace(t) && NoWhitespace(p)
    requires IsWhitespace(w1) && IsWhitespace(w2)
    requires tail == [] || IsWhitespace(tail[0])
    requires line == m + [w1] + t + [w2] + p + tail
    ensures |Pieces(line)| >= 3 && Pieces(line)[0] == m && Pieces(line)[1] == t && Pieces(line)[2] == p
  {
    var l2 := p + tail;
    var l1 := t + [w2] + l2;
    assert line == m + [w1] + l1;
    PiecesOfCons(m, w1, l1);
    PiecesOfCons(t, w2, l2);
    PiecesOfLast(p, tail);
    PiecesCount(l2);
  }

  /** Whatever follows the third token's terminating separator is never looked at. */
  lemma ParseLineOfShape(line: string, m: string, w1: char, t: string, w2: char, p: string, tail: string)
    requires NoWhitespace(m) && NoWhitespace(t) && NoWhitespace(p)
    requires IsWhitespace(w1) && IsWhitespace(w2)
    requires tail == [] || IsWhitespace(tail[0])
    requires line == m + [w1] + t + [w2] + p + tail
    ensures ParseLine(line) == Ok(Handshake(m, t, p))
  {
    PiecesOfShape(line, m, w1, t, w2, p, tail);
    ParseLineOutcome(line);
  }

  /** Two whitespace characters in a row after the method give an empty target. */
  lemma DoubleSeparatorGivesEmptyTarget(line: string, m: string, w1: char, w2: char, rest: string)
    requires NoWhitespace(m) && IsWhitespace(w1) && IsWhitespace(w2)
    requires line == m + [w1, w2] + rest
    ensures ParseLine(line) == Ok(Handshake(m, "", rest[..FirstWhitespace(rest)]))
  {
    var q := FirstWhitespace(rest);
    var p := rest[..q];
    var tail := rest[q..];
    assert rest == p + tail;
    assert line == m + [w1] + [] + [w2] + p + tail;
    ParseLineOfShape(line, m, w1, [], w2, p, tail);
  }

  lemma DoubleSpaceExample()
    ensures ParseLine("GET  x y") == Ok(Handshake("GET", "", "x"))
  {
    var rest := "x y";
    assert NoWhitespace("GET");
    assert "GET  x y" == "GET" + [' ', ' '] + rest;
    FirstWhitespaceOf("x", " y");
    assert rest == "x" + " y";
    assert rest[..1] == "x";
    DoubleSeparatorGivesEmptyTarget("GET  x y", "GET", ' ', ' ', rest);
  }

  // ---------------------------------------------------------------------
  // parse_handshake on bytes, and on the zero-padded receive buffer.

  /** The buffer must be well-formed UTF-8: it fails with InvalidUtf8 exactly when it encodes no string. */
  lemma ParseHandshakeNeedsUtf8(buf: seq<byte>)
    ensures ParseHandshake(buf) == Err(InvalidUtf8) <==> !exists s :: Encode(s) == buf
    ensures ParseHandshake(buf).Ok? ==> Encode(DecodeUtf8(buf).value) == buf
  {
    ValidIffEncoding(buf);
    if DecodeUtf8(buf).Some? {
      EncodeDecode(buf);
      ParseLineOutcome(DecodeUtf8(buf).value);
    }
  }

  /** On the encoding of a line, parse_handshake is the line parser. */
  lemma ParseHandshakeOfText(line: string)
    ensures ParseHandshake(Encode(line)) == ParseLine(line)
  {
    DecodeEncode(line);
  }

  /** The parser sees the read bytes and then the zero padding, as NUL characters. */
  lemma ParsePaddedBuffer(data: seq<byte>, k: nat)
    ensures ParseHandshake(data + Zeros(k)) ==
      match DecodeUtf8(data)
      case None => Err(InvalidUtf8)
      case Some(text) => ParseLine(text + Nuls(k))
  {
    DecodePadded(data, k);
  }

  /** The same on the encoding of a line: the parser sees the line followed by NULs. */
  lemma ParsePaddedText(text: string, k: nat)
    ensures ParseHandshake(Encode(text) + Zeros(k)) == ParseLine(text + Nuls(k))
  {
    ParsePaddedBuffer(Encode(text), k);
    DecodeEncode(text);
  }

  /** On text: a line whose protocol token is followed by whitespace keeps its three tokens under NUL padding. */
  lemma ParseTerminatedLine(line: string, m: string, w1: char, t: string, w2: char, p: string, w3: char, rest: string, k: nat)
    requires NoWhitespace(m) && NoWhitespace(t) && NoWhitespace(p)
    requires IsWhitespace(w1) && IsWhitespace(w2) && IsWhitespace(w3)
    requires line == m + [w1] + t + [w2] + p + [w3] + rest
    ensures ParseLine(line + Nuls(k)) == Ok(Handshake(m, t, p))
  {
    var head := m + [w1] + t + [w2] + p;
    var tail := [w3] + (rest + Nuls(k));
    assert line == head + ([w3] + rest);
    assert line + Nuls(k) == head + tail;
    ParseLineOfShape(line + Nuls(k), m, w1, t, w2, p, tail);
  }

  /**
   * A request line ended by a whitespace character (the CR of CRLF, say)
   * parses to its three tokens, whatever follows it and however much padding.
   */
  lemma ParseTerminatedRequest(line: string, m: string, w1: char, t: string, w2: char, p: string, w3: char, rest: string, k: nat)
    requires NoWhitespace(m) && NoWhitespace(t) && NoWhitespace(p)
    requires IsWhitespace(w1) && IsWhitespace(w2) && IsWhitespace(w3)
    requires line == m + [w1] + t + [w2] + p + [w3] + rest
    ensures ParseHandshake(Encode(line) + Zeros(k)) == Ok(Handshake(m, t, p))
  {
    ParseTerminatedLine(line, m, w1, t, w2, p, w3, rest, k);
    ParsePaddedText(line, k);
  }

  /** NUL is not whitespace, so padding a whitespace-free string keeps it whitespace-free. */
  lemma PlainPadded(p: string, k: nat)
    requires NoWhitespace(p)
    ensures NoWhitespace(p + Nuls(k))
  {
    var q := p + Nuls(k);
    forall i | 0 <= i < |q| ensures !IsWhitespace(q[i]) {
      if i >= |p| {
        assert q[i] == Nuls(k)[i - |p|];
      }
    }
  }

  /** On text: with no whitespace after the protocol token, the NUL padding joins it. */
  lemma ParseUnterminatedLine(line: string, m: string, w1: char, t: string, w2: char, p: string, k: nat)
    requires NoWhitespace(m) && NoWhitespace(t) && NoWhitespace(p)
    requires IsWhitespace(w1) && IsWhitespace(w2)
    requires line == m + [w1] + t + [w2] + p
    ensures ParseLine(line + Nuls(k)) == Ok(Handshake(m, t, p + Nuls(k)))
  {
    var p' := p + Nuls(k);
    PlainPadded(p, k);
    assert line + Nuls(k) == m + [w1] + t + [w2] + p' + [];
    ParseLineOfShape(line + Nuls(k), m, w1, t, w2, p', []);
  }

  /** With nothing after the protocol token, the zero padding becomes part of it. */
  lemma ParseUnterminatedRequest(line: string, m: string, w1: char, t: string, w2: char, p: string, k: nat)
    requires NoWhitespace(m) && NoWhitespace(t) && NoWhitespace(p)
    requires IsWhitespace(w1) && IsWhitespace(w2)
    requires line == m + [w1] + t + [w2] + p
    ensures ParseHandshake(Encode(line) + Zeros(k)) == Ok(Handshake(m, t, p + Nuls(k)))
  {
    ParseUnterminatedLine(line, m, w1, t, w2, p, k);
    ParsePaddedText(line, k);
  }

  /** Appending text without whitespace adds no separator (it only lengthens the last piece). */
  lemma {:induction false} SeparatorsAppendPlain(s: string, x: string)
    requires NoWhitespace(x)
    ensures Separators(s + x) == Separators(s)
    decreases |s|
  {
    var i := FirstWhitespace(s);
    if i < |s| {
      assert s + x == s[..i] + (s[i..] + x);
      FirstWhitespaceOf(s[..i], s[i..] + x);
      assert (s + x)[i + 1..] == s[i + 1..] + x;
      SeparatorsAppendPlain(s[i + 1..], x);
    } else {
      assert s + x == s + x + [];
      FirstWhitespaceOf(s + x, []);
    }
  }
}
