/** What the extractor finds when the text holds JSON. */
module ExtractJson {
  import opened Basics
  import opened TextLines
  import opened JsonText
  import opened Extract

  /** Every JSON value is neutral to the scan, for either kind of bracket. */
  lemma {:induction false} ValueNeutral(v: Value, d: nat, open: char, close: char)
    requires ValueOk(v) && IsBrackets(open, close)
    ensures Holds(Outside(d), Print(v), Outside(d), d, open, close)
    decreases v, 0
  {
    match v
    case Null => DullNeutral("null", d, open, close);
    case Bool(b) => DullNeutral(Print(v), d, open, close);
    case Number(negative, whole, frac, exp) =>
      NumberDull(negative, whole, frac, exp);
      DullNeutral(Print(v), d, open, close);
    case Text(body) => StringNeutral(body, d, open, close);
    case Array(items) =>
      ItemsNeutral(items, d, open, close);
      ItemsNeutral(items, d + 1, open, close);
      BracketsNeutral(PrintItems(items), d, '[', ']', open, close);
    case Object(members) =>
      MembersNeutral(members, d, open, close);
      MembersNeutral(members, d + 1, open, close);
      BracketsNeutral(PrintMembers(members), d, '{', '}', open, close);
  }

  lemma PaddedNeutral(before: string, s: string, after: string, d: nat, open: char, close: char)
    requires IsWs(before) && IsWs(after) && IsBrackets(open, close)
    requires Holds(Outside(d), s, Outside(d), d, open, close)
    ensures Holds(Outside(d), before + s + after, Outside(d), d, open, close)
  {
    DullNeutral(before, d, open, close);
    DullNeutral(after, d, open, close);
    hide Holds;
    NeutralConcat(before, s, d, open, close);
    NeutralConcat(before + s, after, d, open, close);
  }

  lemma CommaNeutral(a: string, b: string, d: nat, open: char, close: char)
    requires IsBrackets(open, close)
    requires Holds(Outside(d), a, Outside(d), d, open, close)
    requires Holds(Outside(d), b, Outside(d), d, open, close)
    ensures Holds(Outside(d), a + "," + b, Outside(d), d, open, close)
  {
    DullNeutral(",", d, open, close);
    hide Holds;
    NeutralConcat(a, ",", d, open, close);
    NeutralConcat(a + ",", b, d, open, close);
  }

  lemma {:induction false} ItemsNeutral(items: Items, d: nat, open: char, close: char)
    requires ItemsOk(items) && IsBrackets(open, close)
    ensures Holds(Outside(d), PrintItems(items), Outside(d), d, open, close)
    decreases items, 0
  {
    match items
    case NoItems(ws) => DullNeutral(ws, d, open, close);
    case LastItem(before, v, after) =>
      ValueNeutral(v, d, open, close);
      PaddedNeutral(before, Print(v), after, d, open, close);
    case MoreItems(before, v, after, rest) =>
      hide Holds;
      ValueNeutral(v, d, open, close);
      PaddedNeutral(before, Print(v), after, d, open, close);
      ItemsNeutral(rest, d, open, close);
      CommaNeutral(before + Print(v) + after, PrintItems(rest), d, open, close);
  }

  lemma MemberNeutral(before: string, key: seq<Piece>, colon: string, s: string, after: string,
                      d: nat, open: char, close: char)
    requires IsWs(before) && PiecesOk(key) && IsColon(colon) && IsWs(after) && IsBrackets(open, close)
    requires Holds(Outside(d), s, Outside(d), d, open, close)
    ensures Holds(Outside(d), before + StringText(key) + colon + s + after, Outside(d), d, open, close)
  {
    hide Holds, IsColon, PiecesOk, StringText;
    DullNeutral(before, d, open, close);
    StringNeutral(key, d, open, close);
    ColonDull(colon);
    DullNeutral(colon, d, open, close);
    DullNeutral(after, d, open, close);
    NeutralConcat(before, StringText(key), d, open, close);
    NeutralConcat(before + StringText(key), colon, d, open, close);
    NeutralConcat(before + StringText(key) + colon, s, d, open, close);
    NeutralConcat(before + StringText(key) + colon + s, after, d, open, close);
  }

  lemma {:induction false} MembersNeutral(members: Members, d: nat, open: char, close: char)
    requires MembersOk(members) && IsBrackets(open, close)
    ensures Holds(Outside(d), PrintMembers(members), Outside(d), d, open, close)
    decreases members, 0
  {
    match members
    case NoMembers(ws) => DullNeutral(ws, d, open, close);
    case LastMember(before, key, colon, v, after) =>
      ValueNeutral(v, d, open, close);
      MemberNeutral(before, key, colon, Print(v), after, d, open, close);
    case MoreMembers(before, key, colon, v, after, rest) =>
      hide Holds;
      ValueNeutral(v, d, open, close);
      MemberNeutral(before, key, colon, Print(v), after, d, open, close);
      MembersNeutral(rest, d, open, close);
      CommaNeutral(before + StringText(key) + colon + Print(v) + after, PrintMembers(rest), d, open, close);
  }

  // ----- one block

  /** An object for braces, an array for brackets. */
  predicate Opens(v: Value, open: char, close: char) {
    || (v.Object? && open == '{' && close == '}')
    || (v.Array? && open == '[' && close == ']')
  }

  function Inner(v: Value): string
    requires v.Object? || v.Array?
  {
    if v.Object? then PrintMembers(v.members) else PrintItems(v.items)
  }

  lemma InnerNeutral(v: Value, open: char, close: char)
    requires ValueOk(v) && Opens(v, open, close)
    ensures Print(v) == [open] + Inner(v) + [close]
    ensures Holds(Outside(1), Inner(v), Outside(1), 1, open, close)
  {
    if v.Object? {
      MembersNeutral(v.members, 1, open, close);
    } else {
      ItemsNeutral(v.items, 1, open, close);
    }
  }

  /** The scan of a bracketed text is at depth 0 first at its closing bracket. */
  lemma FirstZeroOfBlock(inner: string, suffix: string, open: char, close: char)
    requires IsBrackets(open, close) && Holds(Outside(1), inner, Outside(1), 1, open, close)
    ensures FirstZero(START, [open] + inner + [close] + suffix, open, close) == Some(|inner| + 2)
  {
    var s := [open] + inner + [close] + suffix;
    assert s[1..] == inner + ([close] + suffix);
    assert Step(START, open, open, close) == Outside(1);
    FirstZeroAfter(inner, [close] + suffix, open, close);
  }

  lemma FirstZeroAfter(inner: string, rest: string, open: char, close: char)
    requires IsBrackets(open, close) && Holds(Outside(1), inner, Outside(1), 1, open, close)
    requires rest != [] && rest[0] == close
    ensures FirstZero(Outside(1), inner + rest, open, close) == Some(|inner| + 1)
  {
    FirstZeroSkips(Outside(1), inner, rest, open, close);
    assert Step(Outside(1), close, open, close) == Outside(0);
    assert FirstZero(Outside(1), rest, open, close) == Some(1);
  }

  lemma {:induction false} FirstZeroSkips(st: Scan, a: string, b: string, open: char, close: char)
    requires forall k :: 0 < k <= |a| ==> Run(st, a[..k], open, close).depth != 0
    ensures FirstZero(st, a + b, open, close)
         == match FirstZero(Run(st, a, open, close), b, open, close)
            case None => None
            case Some(n) => Some(|a| + n)
    decreases |a|
  {
    if a == [] {
      assert a + b == b;
    } else {
      var next := Step(st, a[0], open, close);
      assert (a + b)[1..] == a[1..] + b;
      forall k | 0 <= k < |a| ensures Run(next, a[1..][..k], open, close) == Run(st, a[..k + 1], open, close) {
        assert a[..k + 1][1..] == a[1..][..k];
      }
      assert Run(next, a[1..][..0], open, close) == next;
      FirstZeroSkips(next, a[1..], b, open, close);
    }
  }

  /** The first JSON object (or array) of a text is found whole, whatever is in
    * its strings, whatever stands before it short of an opening bracket, and
    * whatever follows.
    */
  lemma ExtractsTheValue(prefix: string, v: Value, suffix: string, open: char, close: char)
    requires ValueOk(v) && Opens(v, open, close) && open !in prefix
    ensures Block(prefix + Print(v) + suffix, open, close)
         == Some((|prefix|, |prefix| + |Print(v)|))
    ensures var text := prefix + Print(v) + suffix;
            text[|prefix|..|prefix| + |Print(v)|] == Print(v)
  {
    InnerNeutral(v, open, close);
    FirstZeroOfBlock(Inner(v), suffix, open, close);
    var block := Print(v);
    hide Print, Inner, ValueOk, FirstZero, Holds;
    BlockAfter(prefix, block, suffix, open, close);
  }

  lemma BlockAfter(prefix: string, block: string, suffix: string, open: char, close: char)
    requires open !in prefix && block != [] && block[0] == open
    requires FirstZero(START, block + suffix, open, close) == Some(|block|)
    ensures Block(prefix + block + suffix, open, close) == Some((|prefix|, |prefix| + |block|))
    ensures (prefix + block + suffix)[|prefix|..|prefix| + |block|] == block
  {
    var text := prefix + block + suffix;
    assert text[|prefix|] == open;
    IndexOfIs(text, open, |prefix|);
    assert text[|prefix|..] == block + suffix;
  }

  // ----- all blocks

  /** `sep obj sep obj ... last`. */
  function Interleave(seps: seq<string>, objs: seq<Value>, last: string): string
    requires |seps| == |objs|
  {
    if seps == [] then last else seps[0] + Print(objs[0]) + Interleave(seps[1..], objs[1..], last)
  }

  function Printed(objs: seq<Value>): seq<string> {
    if objs == [] then [] else [Print(objs[0])] + Printed(objs[1..])
  }

  /** Objects apart by text without `{` come out complete and in order. */
  lemma {:induction false} ExtractsAllObjects(seps: seq<string>, objs: seq<Value>, last: string)
    requires |seps| == |objs|
    requires forall i :: 0 <= i < |objs| ==> objs[i].Object? && ValueOk(objs[i])
    requires forall i :: 0 <= i < |seps| ==> '{' !in seps[i]
    requires '{' !in last
    ensures AllObjects(Interleave(seps, objs, last)) == Printed(objs)
    decreases |seps|
  {
    if seps == [] {
    } else {
      var rest := Interleave(seps[1..], objs[1..], last);
      ExtractsTheValue(seps[0], objs[0], rest, '{', '}');
      ExtractsAllObjects(seps[1..], objs[1..], last);
      var text := seps[0] + Print(objs[0]) + rest;
      assert text[|seps[0]| + |Print(objs[0])|..] == rest;
    }
  }
}
