/** What the lenient decoder makes of a string literal, against what RFC 8259,
  * section 7, says it stands for.
  */
module StringDecode {
  import opened JsonText
  import opened StringEscape
  import opened StringEscapeLaws

  // ----- what a literal stands for, in UTF-16 code units

  function Units(c: char): seq<nat> {
    var n := c as int;
    if n < 0x10000 then [n] else [0xD800 + (n - 0x10000) / 0x400, 0xDC00 + (n - 0x10000) % 0x400]
  }

  function Utf16(s: string): seq<nat> {
    if s == [] then [] else Units(s[0]) + Utf16(s[1..])
  }

  function HexDigitValue(c: char): nat
    requires IsHexDigit(c)
  {
    if c <= '9' then c as int - '0' as int
    else if c <= 'F' then c as int - 'A' as int + 10
    else c as int - 'a' as int + 10
  }

  function HexValue(hex: string): nat
    requires forall i :: 0 <= i < |hex| ==> IsHexDigit(hex[i])
  {
    if hex == [] then 0 else HexValue(hex[..|hex| - 1]) * 16 + HexDigitValue(hex[|hex| - 1])
  }

  /** The character of a two-character escape. */
  function EscapeValue(c: char): char {
    match c
    case 'b' => 8 as char
    case 'f' => 12 as char
    case 'n' => '\n'
    case 'r' => '\r'
    case 't' => '\t'
    case _ => c
  }

  function PieceUnits(p: Piece): seq<nat>
    requires PieceOk(p)
  {
    match p
    case Plain(c) => Units(c)
    case Escaped(c) => Units(EscapeValue(c))
    case Unicode(hex) => [HexValue(hex)]
  }

  /** The code units of a literal's value. */
  function BodyUnits(body: seq<Piece>): seq<nat>
    requires PiecesOk(body)
  {
    if body == [] then [] else PieceUnits(body[0]) + BodyUnits(body[1..])
  }

  // ----- what the decoder makes of it

  /** The pieces the decoder reads; it leaves the others as they are written. */
  predicate IsRead(p: Piece) {
    match p
    case Plain(_) => true
    case Escaped(c) => c != 'b' && c != 'f'
    case Unicode(_) => false
  }

  function LenientPiece(p: Piece): string {
    match p
    case Plain(c) => [c]
    case Escaped(c) => if IsRead(p) then [EscapeValue(c)] else PieceText(p)
    case Unicode(_) => PieceText(p)
  }

  function LenientBody(body: seq<Piece>): string {
    if body == [] then "" else LenientPiece(body[0]) + LenientBody(body[1..])
  }

  lemma HexIsPlain(hex: string)
    requires PieceOk(Unicode(hex))
    ensures forall i :: 0 <= i < |hex| ==> IsPlain(hex[i])
  {
  }

  lemma ResolveEscape(c: char)
    requires PieceOk(Escaped(c))
    ensures Resolve(c) == LenientPiece(Escaped(c))
  {
  }

  lemma PieceDecodes(p: Piece, t: string)
    requires PieceOk(p)
    ensures Unescape(PieceText(p) + t) == LenientPiece(p) + Unescape(t)
  {
    match p
    case Plain(c) =>
      Plain1(c, t);
    case Escaped(c) =>
      Pair(c, t);
      ResolveEscape(c);
    case Unicode(hex) =>
      UnicodeStays(hex, t);
  }

  lemma UnicodeStays(hex: string, t: string)
    requires PieceOk(Unicode(hex))
    ensures Unescape(PieceText(Unicode(hex)) + t) == PieceText(Unicode(hex)) + Unescape(t)
  {
    hide *;
    HexIsPlain(hex);
    UnicodeText(hex, t);
    UnicodeText(hex, Unescape(t));
    Pair('u', hex + t);
    PlainRun(hex, t);
    ResolveU();
  }

  lemma UnicodeText(hex: string, t: string)
    ensures PieceText(Unicode(hex)) + t == ['\\', 'u'] + (hex + t)
  {
  }

  lemma ResolveU()
    ensures Resolve('u') == ['\\', 'u']
  {
  }

  /** Each piece is read as its character or left as it is written. */
  lemma {:induction false} BodyDecodes(body: seq<Piece>)
    requires PiecesOk(body)
    ensures Unescape(BodyText(body)) == LenientBody(body)
  {
    hide PieceOk, PieceText, LenientPiece;
    if body != [] {
      PieceDecodes(body[0], BodyText(body[1..]));
      BodyDecodes(body[1..]);
    }
  }

  lemma {:induction false} Utf16Concat(a: string, b: string)
    ensures Utf16(a + b) == Utf16(a) + Utf16(b)
  {
    hide Units;
    if a == [] {
      assert a + b == b;
    } else {
      assert (a + b)[1..] == a[1..] + b;
      Utf16Concat(a[1..], b);
      assert Units(a[0]) + (Utf16(a[1..]) + Utf16(b)) == Units(a[0]) + Utf16(a[1..]) + Utf16(b);
    }
  }

  lemma {:induction false} Utf16Length(s: string)
    ensures |Utf16(s)| >= |s|
  {
    if s != [] {
      Utf16Length(s[1..]);
    }
  }

  lemma OneChar(c: char)
    ensures Utf16([c]) == Units(c)
  {
    assert [c][1..] == [];
    assert Units(c) + [] == Units(c);
  }

  /** A piece that is read gives its own code units; one that is not gives more. */
  lemma PieceCompares(p: Piece)
    requires PieceOk(p)
    ensures if IsRead(p) then Utf16(LenientPiece(p)) == PieceUnits(p)
            else |Utf16(LenientPiece(p))| > |PieceUnits(p)|
  {
    match p
    case Plain(c) => OneChar(c);
    case Escaped(c) =>
      OneChar(EscapeValue(c));
      Utf16Length(PieceText(p));
    case Unicode(hex) =>
      Utf16Length(PieceText(p));
      hide HexValue, Utf16;
  }

  lemma ConcatCompares(a: seq<nat>, b: seq<nat>, x: seq<nat>, y: seq<nat>)
    requires (a == x || |a| > |x|) && (b == y || |b| > |y|)
    ensures a + b == x + y || |a + b| > |x + y|
    ensures a + b == x + y <==> a == x && b == y
  {
    if |a| == |x| && a + b == x + y {
      assert a == (a + b)[..|a|] && b == (a + b)[|a|..];
      assert x == (x + y)[..|x|] && y == (x + y)[|x|..];
    }
  }

  /** The decoded value is what the literal stands for exactly when none of its
    * pieces is `\b`, `\f` or a `\uXXXX`; otherwise it is strictly longer.
    */
  lemma {:induction false} DecodesExactlyWhen(body: seq<Piece>)
    requires PiecesOk(body)
    ensures Utf16(Unescape(BodyText(body))) == BodyUnits(body) <==> forall i :: 0 <= i < |body| ==> IsRead(body[i])
    ensures Utf16(Unescape(BodyText(body))) == BodyUnits(body)
         || |Utf16(Unescape(BodyText(body)))| > |BodyUnits(body)|
  {
    BodyDecodes(body);
    hide PieceOk, PieceUnits, LenientPiece, Utf16, IsRead, Unescape, BodyText;
    LenientCompares(body);
  }

  lemma {:induction false} LenientCompares(body: seq<Piece>)
    requires PiecesOk(body)
    ensures Utf16(LenientBody(body)) == BodyUnits(body) <==> forall i :: 0 <= i < |body| ==> IsRead(body[i])
    ensures Utf16(LenientBody(body)) == BodyUnits(body) || |Utf16(LenientBody(body))| > |BodyUnits(body)|
  {
    if body != [] {
      PieceCompares(body[0]);
      LenientCompares(body[1..]);
      Utf16Concat(LenientPiece(body[0]), LenientBody(body[1..]));
      hide PieceOk, PieceUnits, LenientPiece, Utf16, IsRead;
      ConcatCompares(Utf16(LenientPiece(body[0])), Utf16(LenientBody(body[1..])), PieceUnits(body[0]), BodyUnits(body[1..]));
      assert forall i :: 0 < i < |body| ==> body[i] == body[1..][i - 1];
    }
  }
}
