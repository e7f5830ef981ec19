/** JSON texts (RFC 8259, sections 2 to 7): concrete syntax trees, white space
  * included, and the text they stand for.
  */
module JsonText {
  import opened Decimal

  // ----- strings (section 7)

  datatype Piece = Plain(c: char) | Escaped(c: char) | Unicode(hex: string)

  predicate IsHexDigit(c: char) {
    '0' <= c <= '9' || 'a' <= c <= 'f' || 'A' <= c <= 'F'
  }

  predicate PieceOk(p: Piece) {
    match p
    case Plain(c) => c >= ' ' && c != '"' && c != '\\'
    case Escaped(c) => c in {'"', '\\', '/', 'b', 'f', 'n', 'r', 't'}
    case Unicode(hex) => |hex| == 4 && forall i :: 0 <= i < 4 ==> IsHexDigit(hex[i])
  }

  predicate PiecesOk(body: seq<Piece>) {
    forall i :: 0 <= i < |body| ==> PieceOk(body[i])
  }

  function PieceText(p: Piece): string {
    match p
    case Plain(c) => [c]
    case Escaped(c) => ['\\', c]
    case Unicode(hex) => "\\u" + hex
  }

  /** The body of a string literal, without its quotes. */
  function BodyText(body: seq<Piece>): string {
    if body == [] then "" else PieceText(body[0]) + BodyText(body[1..])
  }

  function StringText(body: seq<Piece>): string {
    "\"" + BodyText(body) + "\""
  }

  // ----- numbers (section 6)

  predicate IsInt(s: string) {
    s != [] && AllDigits(s) && (s[0] == '0' ==> |s| == 1)
  }

  predicate IsFrac(s: string) {
    s == [] || (|s| > 1 && s[0] == '.' && AllDigits(s[1..]))
  }

  predicate IsExp(s: string) {
    s == [] || (
      && (s[0] == 'e' || s[0] == 'E')
      && (|| (|s| > 1 && AllDigits(s[1..]))
          || (|s| > 2 && (s[1] == '+' || s[1] == '-') && AllDigits(s[2..]))))
  }

  // ----- values (sections 3 to 5); white space is kept where it may stand

  datatype Value =
    | Null
    | Bool(b: bool)
    | Number(negative: bool, whole: string, frac: string, exp: string)
    | Text(body: seq<Piece>)
    | Array(items: Items)
    | Object(members: Members)

  datatype Items =
    | NoItems(ws: string)
    | LastItem(before: string, v: Value, after: string)
    | MoreItems(before: string, v: Value, after: string, rest: Items)

  datatype Members =
    | NoMembers(ws: string)
    | LastMember(before: string, key: seq<Piece>, colon: string, v: Value, after: string)
    | MoreMembers(before: string, key: seq<Piece>, colon: string, v: Value, after: string, rest: Members)

  /** White space of section 2. */
  predicate IsWs(s: string) {
    forall i :: 0 <= i < |s| ==> s[i] == ' ' || s[i] == '\t' || s[i] == '\n' || s[i] == '\r'
  }

  /** A colon with white space around it. */
  predicate IsColon(s: string) {
    exists k :: 0 <= k < |s| && s[k] == ':' && IsWs(s[..k]) && IsWs(s[k + 1..])
  }

  predicate ValueOk(v: Value) {
    match v
    case Null => true
    case Bool(_) => true
    case Number(_, whole, frac, exp) => IsInt(whole) && IsFrac(frac) && IsExp(exp)
    case Text(body) => PiecesOk(body)
    case Array(items) => ItemsOk(items)
    case Object(members) => MembersOk(members)
  }

  predicate ItemsOk(items: Items) {
    match items
    case NoItems(ws) => IsWs(ws)
    case LastItem(before, v, after) => IsWs(before) && ValueOk(v) && IsWs(after)
    case MoreItems(before, v, after, rest) =>
      IsWs(before) && ValueOk(v) && IsWs(after) && ItemsOk(rest) && !rest.NoItems?
  }

  predicate MembersOk(members: Members) {
    match members
    case NoMembers(ws) => IsWs(ws)
    case LastMember(before, key, colon, v, after) =>
      IsWs(before) && PiecesOk(key) && IsColon(colon) && ValueOk(v) && IsWs(after)
    case MoreMembers(before, key, colon, v, after, rest) =>
      IsWs(before) && PiecesOk(key) && IsColon(colon) && ValueOk(v) && IsWs(after)
      && MembersOk(rest) && !rest.NoMembers?
  }

  function Print(v: Value): string {
    match v
    case Null => "null"
    case Bool(b) => if b then "true" else "false"
    case Number(negative, whole, frac, exp) => (if negative then "-" else "") + whole + frac + exp
    case Text(body) => StringText(body)
    case Array(items) => "[" + PrintItems(items) + "]"
    case Object(members) => "{" + PrintMembers(members) + "}"
  }

  function PrintItems(items: Items): string {
    match items
    case NoItems(ws) => ws
    case LastItem(before, v, after) => before + Print(v) + after
    case MoreItems(before, v, after, rest) => before + Print(v) + after + "," + PrintItems(rest)
  }

  function PrintMembers(members: Members): string {
    match members
    case NoMembers(ws) => ws
    case LastMember(before, key, colon, v, after) => before + StringText(key) + colon + Print(v) + after
    case MoreMembers(before, key, colon, v, after, rest) =>
      before + StringText(key) + colon + Print(v) + after + "," + PrintMembers(rest)
  }
}
