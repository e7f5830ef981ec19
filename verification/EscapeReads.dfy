/** What escaping raw control characters is for: the literal becomes one that
  * RFC 8259, section 7, allows, and stands for the characters that were meant.
  */
module EscapeReads {
  import opened JsonText
  import opened StringEscape
  import opened StringEscapeLaws
  import opened StringDecode

  /** A piece of a body as it may be written: a raw control character is one too. */
  predicate Writable(p: Piece) {
    match p
    case Plain(c) => c != '"' && c != '\\'
    case _ => PieceOk(p)
  }

  predicate AllWritable(body: seq<Piece>) {
    forall i :: 0 <= i < |body| ==> Writable(body[i])
  }

  /** The code units that were meant: a raw character means itself. */
  function MeantUnits(p: Piece): seq<nat>
    requires Writable(p)
  {
    match p
    case Plain(c) => Units(c)
    case _ => PieceUnits(p)
  }

  function MeantBody(body: seq<Piece>): seq<nat>
    requires AllWritable(body)
  {
    if body == [] then [] else MeantUnits(body[0]) + MeantBody(body[1..])
  }

  lemma HexDigitReads(n: nat)
    requires n < 16
    ensures IsHexDigit(HexDigit(n)) && HexDigitValue(HexDigit(n)) == n
  {
  }

  lemma HexOfTwo(a: char, b: char)
    requires IsHexDigit(a) && IsHexDigit(b)
    ensures HexValue(['0', '0', a, b]) == 16 * HexDigitValue(a) + HexDigitValue(b)
  {
    var hex := ['0', '0', a, b];
    assert hex[..3] == ['0', '0', a] && ['0', '0', a][..2] == ['0', '0'];
    assert ['0', '0'][..1] == ['0'] && ['0'][..0] == [];
    assert HexValue(['0']) == 0;
    assert HexValue(['0', '0']) == 0;
    assert HexValue(['0', '0', a]) == HexDigitValue(a);
  }

  /** The piece that is written for one. */
  function Written(p: Piece): Piece {
    match p
    case Plain(c) =>
      if c == '\n' then Escaped('n') else if c == '\r' then Escaped('r') else if c == '\t' then Escaped('t')
      else if c < ' ' then Unicode(EscapeChar(c)[2..]) else p
    case _ => p
  }

  function WrittenBody(body: seq<Piece>): seq<Piece> {
    if body == [] then [] else [Written(body[0])] + WrittenBody(body[1..])
  }

  /** A raw character becomes an escape that stands for it, or stays. */
  lemma CharReads(c: char)
    requires Writable(Plain(c))
    ensures var q := Written(Plain(c));
            PieceOk(q) && PieceText(q) == EscapeChar(c) && PieceUnits(q) == Units(c)
  {
    if c < ' ' && c != '\n' && c != '\r' && c != '\t' {
      var a, b := c as int / 16, c as int % 16;
      HexDigitReads(a);
      HexDigitReads(b);
      HexOfTwo(HexDigit(a), HexDigit(b));
      assert EscapeChar(c)[2..] == ['0', '0', HexDigit(a), HexDigit(b)];
      assert EscapeChar(c) == "\\u" + EscapeChar(c)[2..];
    }
  }

  lemma {:induction false} PlainRunBody(w: string, t: string)
    requires forall i :: 0 <= i < |w| ==> IsPlain(w[i])
    ensures EscapeBody(w + t) == w + EscapeBody(t)
  {
    if w == [] {
      assert w + t == t;
    } else {
      assert EscapeChar(w[0]) == [w[0]] && Writable(Plain(w[0]));
      hide *;
      PlainRunBody(w[1..], t);
      RawCharSteps(w[0], w[1..] + t);
      ConsAssoc(w, t);
      ConsAssoc(w, EscapeBody(t));
    }
  }

  lemma RawCharSteps(c: char, t: string)
    requires Writable(Plain(c))
    ensures EscapeInside([c] + t) == EscapeChar(c) + EscapeInside(t)
    ensures EscapeBody([c] + t) == EscapeChar(c) + EscapeBody(t)
  {
    assert ([c] + t)[1..] == t;
  }

  lemma UnicodeSteps(hex: string, t: string)
    requires PieceOk(Unicode(hex))
    ensures EscapeInside(PieceText(Unicode(hex)) + t) == PieceText(Unicode(hex)) + EscapeInside(t)
    ensures EscapeBody(PieceText(Unicode(hex)) + t) == PieceText(Unicode(hex)) + EscapeBody(t)
  {
    hide *;
    HexIsPlain(hex);
    UnicodeText(hex, t);
    UnicodeText(hex, EscapeInside(t));
    UnicodeText(hex, EscapeBody(t));
    Pair('u', hex + t);
    PlainRun(hex, t);
    PlainRunBody(hex, t);
  }

  /** A piece is written out as one that is allowed and means the same. */
  lemma PieceReads(p: Piece, t: string)
    requires Writable(p)
    ensures PieceOk(Written(p)) && PieceUnits(Written(p)) == MeantUnits(p)
    ensures EscapeInside(PieceText(p) + t) == PieceText(Written(p)) + EscapeInside(t)
    ensures EscapeBody(PieceText(p) + t) == PieceText(Written(p)) + EscapeBody(t)
  {
    match p
    case Plain(c) =>
      RawCharSteps(c, t);
      CharReads(c);
    case Escaped(c) =>
      Pair(c, t);
    case Unicode(hex) =>
      UnicodeSteps(hex, t);
  }

  lemma {:induction false} BodySteps(body: seq<Piece>, t: string)
    requires AllWritable(body)
    ensures EscapeBody(BodyText(body)) == BodyText(WrittenBody(body))
    ensures EscapeInside(BodyText(body) + t) == BodyText(WrittenBody(body)) + EscapeInside(t)
  {
    if body == [] {
      assert "" + t == t && "" + EscapeInside(t) == EscapeInside(t);
    } else {
      var p, rest := body[0], body[1..];
      assert Writable(p) && AllWritable(rest);
      BodySteps(rest, t);
      WrittenCons(body);
      hide *;
      PieceReads(p, BodyText(rest));
      PieceReads(p, BodyText(rest) + t);
      Assoc(PieceText(p), BodyText(rest), t);
      Assoc(PieceText(Written(p)), BodyText(WrittenBody(rest)), EscapeInside(t));
    }
  }

  lemma WrittenCons(body: seq<Piece>)
    requires body != []
    ensures BodyText(body) == PieceText(body[0]) + BodyText(body[1..])
    ensures BodyText(WrittenBody(body)) == PieceText(Written(body[0])) + BodyText(WrittenBody(body[1..]))
  {
    assert WrittenBody(body)[1..] == WrittenBody(body[1..]);
  }

  lemma {:induction false} WrittenReads(body: seq<Piece>)
    requires AllWritable(body)
    ensures PiecesOk(WrittenBody(body)) && BodyUnits(WrittenBody(body)) == MeantBody(body)
  {
    if body != [] {
      WrittenReads(body[1..]);
      PieceReads(body[0], "");
      var q, more := Written(body[0]), WrittenBody(body[1..]);
      hide PieceOk, PieceUnits, MeantUnits, Written, Writable;
      assert ([q] + more)[1..] == more;
      assert forall i :: 0 < i <= |more| ==> ([q] + more)[i] == more[i - 1];
    }
  }

  /** A body of raw characters and escapes is rewritten to one that is allowed, and
    * every character and every escape keeps its meaning.
    */
  lemma EscapedBodyReads(body: seq<Piece>) returns (b: seq<Piece>)
    requires AllWritable(body)
    ensures PiecesOk(b) && BodyText(b) == EscapeBody(BodyText(body)) && BodyUnits(b) == MeantBody(body)
  {
    b := WrittenBody(body);
    BodySteps(body, "");
    WrittenReads(body);
  }

  /** So is a literal in a longer text, and what follows is rewritten on its own. */
  lemma EscapedLiteralReads(body: seq<Piece>, rest: string) returns (b: seq<Piece>)
    requires AllWritable(body)
    ensures PiecesOk(b) && BodyUnits(b) == MeantBody(body)
    ensures EscapeOutside(StringText(body) + rest) == StringText(b) + EscapeOutside(rest)
  {
    hide *;
    b := WrittenBody(body);
    WrittenReads(body);
    var text, tail := BodyText(body), "\"" + rest;
    LiteralText(body, rest);
    BodySteps(body, tail);
    QuoteFirst(rest);
    OpenLiteral(text + tail);
    LiteralText(b, EscapeOutside(rest));
  }

  lemma LiteralText(b: seq<Piece>, rest: string)
    ensures StringText(b) + rest == "\"" + (BodyText(b) + ("\"" + rest))
  {
    hide BodyText;
  }

  lemma OpenLiteral(t: string)
    ensures EscapeOutside("\"" + t) == "\"" + EscapeInside(t)
  {
    assert ("\"" + t)[1..] == t;
  }

  /** A body of raw characters only: without quotes and backslashes it means itself. */
  lemma {:induction false} RawBodyMeansItself(s: string) returns (body: seq<Piece>)
    requires '"' !in s && '\\' !in s
    ensures AllWritable(body) && BodyText(body) == s && MeantBody(body) == Utf16(s)
  {
    if s == [] {
      body := [];
    } else {
      var more := RawBodyMeansItself(s[1..]);
      body := [Plain(s[0])] + more;
      hide PieceOk, Units;
      assert body[1..] == more && s == [s[0]] + s[1..];
      assert PieceText(body[0]) == [s[0]] && MeantUnits(body[0]) == Units(s[0]);
    }
  }
}
