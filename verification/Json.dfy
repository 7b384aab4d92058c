/** JSON values and their compact text, as JSON.stringify prints it. */
module Json {
  /** A number is kept as its text; an object's members are in enumeration order. */
  datatype Json =
    | Null
    | Bool(b: bool)
    | Num(text: string)
    | Str(s: string)
    | Arr(items: seq<Json>)
    | Obj(members: seq<Member>)

  datatype Member = Member(key: string, value: Json)

  function HexDigit(d: int): char
    requires 0 <= d < 16
  {
    if d < 10 then '0' + d as char else 'a' + (d - 10) as char
  }

  function EscapeChar(c: char): (r: string)
    ensures r != [] && r[0] != '"'
  {
    if c == '"' then ['\\', '"']
    else if c == '\\' then ['\\', '\\']
    else if c == '\U{0008}' then ['\\', 'b']
    else if c == '\t' then ['\\', 't']
    else if c == '\n' then ['\\', 'n']
    else if c == '\U{000C}' then ['\\', 'f']
    else if c == '\r' then ['\\', 'r']
    else if c < ' ' then ['\\', 'u', '0', '0', HexDigit(c as int / 16), HexDigit(c as int % 16)]
    else [c]
  }

  function Escape(s: string): string {
    if s == [] then [] else EscapeChar(s[0]) + Escape(s[1..])
  }

  function Quote(s: string): string {
    ['"'] + Escape(s) + ['"']
  }

  function Stringify(x: Json): string
    decreases x, 1
  {
    match x
    case Null => "null"
    case Bool(b) => if b then "true" else "false"
    case Num(t) => t
    case Str(s) => Quote(s)
    case Arr(items) => "[" + ItemsText(items)
    case Obj(members) => "{" + MembersText(members)
  }

  /** Items and the closing bracket. */
  function ItemsText(items: seq<Json>): (text: string)
    ensures text != []
    decreases items, 0
  {
    if items == [] then "]" else Stringify(items[0]) + AfterItem(items[1..])
  }

  /** What follows an item when `rest` is left. */
  function AfterItem(rest: seq<Json>): (text: string)
    ensures text != [] && text[0] == if rest == [] then ']' else ','
    decreases rest, 1
  {
    if rest == [] then "]" else "," + ItemsText(rest)
  }

  /** Members and the closing brace. */
  function MembersText(members: seq<Member>): (text: string)
    ensures text != [] && text[0] == if members == [] then '}' else '"'
    decreases members, 0
  {
    if members == [] then "}"
    else Quote(members[0].key) + (":" + (Stringify(members[0].value) + AfterMember(members[1..])))
  }

  function AfterMember(rest: seq<Member>): (text: string)
    ensures text != [] && text[0] == if rest == [] then '}' else ','
    decreases rest, 1
  {
    if rest == [] then "}" else "," + MembersText(rest)
  }

  predicate NumberChar(c: char) {
    '0' <= c <= '9' || c == '-' || c == '+' || c == '.' || c == 'e' || c == 'E'
  }

  /** Number texts are made of number characters, starting with a digit or a minus. */
  predicate NumberText(t: string) {
    && t != [] && ('0' <= t[0] <= '9' || t[0] == '-')
    && '0' <= t[|t| - 1] <= '9'
    && forall i :: 0 <= i < |t| ==> NumberChar(t[i])
  }

  /** Every number in the value has a number's text. */
  predicate Printable(x: Json) {
    match x
    case Num(t) => NumberText(t)
    case Arr(items) => forall i :: 0 <= i < |items| ==> Printable(items[i])
    case Obj(members) => forall i :: 0 <= i < |members| ==> Printable(members[i].value)
    case _ => true
  }

  // ---------------------------------------------- the text determines the value

  /** What may follow a value: nothing, or a separator or closing character. */
  predicate Delimited(s: string) {
    s == [] || s[0] == ',' || s[0] == ']' || s[0] == '}'
  }

  lemma SameHead(c: char, s: string, d: char, t: string)
    requires [c] + s == [d] + t
    ensures c == d && s == t
  {
    assert ([c] + s)[0] == c && ([d] + t)[0] == d;
    assert ([c] + s)[1..] == s && ([d] + t)[1..] == t;
  }

  lemma EscapeCharReadable(c: char, s: string, d: char, t: string)
    requires EscapeChar(c) + s == EscapeChar(d) + t
    ensures c == d && s == t
  {
    var l := EscapeChar(c) + s;
    var r := EscapeChar(d) + t;
    assert l[0] == EscapeChar(c)[0] && r[0] == EscapeChar(d)[0];
    if |EscapeChar(c)| > 1 {
      assert l[1] == EscapeChar(c)[1] && r[1] == EscapeChar(d)[1];
      if |EscapeChar(c)| == 6 {
        assert l[4] == EscapeChar(c)[4] && r[4] == EscapeChar(d)[4];
        assert l[5] == EscapeChar(c)[5] && r[5] == EscapeChar(d)[5];
        assert c as int == 16 * (c as int / 16) + c as int % 16;
        assert d as int == 16 * (d as int / 16) + d as int % 16;
      }
    }
    assert |EscapeChar(c)| == |EscapeChar(d)|;
    assert s == l[|EscapeChar(c)|..] && t == r[|EscapeChar(d)|..];
  }

  lemma EscapeHead(a: string, s: string)
    ensures var l := Escape(a) + (['"'] + s); l[0] == '"' <==> a == []
  {}

  lemma {:induction false} EscapeReadable(a: string, s: string, b: string, t: string)
    requires Escape(a) + (['"'] + s) == Escape(b) + (['"'] + t)
    ensures a == b && s == t
  {
    EscapeHead(a, s);
    EscapeHead(b, t);
    if a == [] {
      assert Escape(a) + (['"'] + s) == ['"'] + s && Escape(b) + (['"'] + t) == ['"'] + t;
      SameHead('"', s, '"', t);
    } else {
      Associate(EscapeChar(a[0]), Escape(a[1..]), ['"'] + s);
      Associate(EscapeChar(b[0]), Escape(b[1..]), ['"'] + t);
      EscapeCharReadable(a[0], Escape(a[1..]) + (['"'] + s), b[0], Escape(b[1..]) + (['"'] + t));
      EscapeReadable(a[1..], s, b[1..], t);
      assert a == [a[0]] + a[1..] && b == [b[0]] + b[1..];
    }
  }

  lemma Associate(a: string, b: string, c: string)
    ensures a + b + c == a + (b + c)
  {}

  lemma QuoteReadable(a: string, s: string, b: string, t: string)
    requires Quote(a) + s == Quote(b) + t
    ensures a == b && s == t
  {
    QuoteText(a, s);
    QuoteText(b, t);
    SameHead('"', Escape(a) + (['"'] + s), '"', Escape(b) + (['"'] + t));
    EscapeReadable(a, s, b, t);
  }

  lemma QuoteText(a: string, s: string)
    ensures Quote(a) + s == ['"'] + (Escape(a) + (['"'] + s))
  {}

  lemma NumberHead(a: string, s: string)
    requires Delimited(s) && forall i :: 0 <= i < |a| ==> NumberChar(a[i])
    ensures a == [] <==> a + s == [] || !NumberChar((a + s)[0])
  {
    assert a == [] ==> a + s == s;
  }

  lemma {:induction false} NumberReadable(a: string, s: string, b: string, t: string)
    requires forall i :: 0 <= i < |a| ==> NumberChar(a[i])
    requires forall i :: 0 <= i < |b| ==> NumberChar(b[i])
    requires Delimited(s) && Delimited(t) && a + s == b + t
    ensures a == b && s == t
  {
    NumberHead(a, s);
    NumberHead(b, t);
    if a == [] {
      assert a + s == s && b + t == t;
    } else {
      assert a + s == [a[0]] + (a[1..] + s) && b + t == [b[0]] + (b[1..] + t);
      SameHead(a[0], a[1..] + s, b[0], b[1..] + t);
      NumberReadable(a[1..], s, b[1..], t);
      assert a == [a[0]] + a[1..] && b == [b[0]] + b[1..];
    }
  }

  /** The kind of a value, read off the first character of its text. */
  function KindOf(c: char): int {
    if c == 'n' then 0 else if c == 't' then 1 else if c == 'f' then 2
    else if c == '"' then 3 else if c == '[' then 4 else if c == '{' then 5
    else if '0' <= c <= '9' || c == '-' then 6 else 7
  }

  function Kind(x: Json): int {
    match x
    case Null => 0
    case Bool(b) => if b then 1 else 2
    case Num(_) => 6
    case Str(_) => 3
    case Arr(_) => 4
    case Obj(_) => 5
  }

  lemma FirstCharTellsKind(x: Json)
    requires Printable(x)
    ensures Stringify(x) != [] && KindOf(Stringify(x)[0]) == Kind(x)
  {}

  /**
   * The text of a value determines the value, even with more text after it: two
   * values whose texts agree, each up to a delimiter, are the same value.
   */
  lemma {:induction false} TextReadable(x: Json, s: string, y: Json, t: string)
    requires Printable(x) && Printable(y) && Delimited(s) && Delimited(t)
    requires Stringify(x) + s == Stringify(y) + t
    ensures x == y && s == t
    decreases x, 1
  {
    FirstCharTellsKind(x);
    FirstCharTellsKind(y);
    assert (Stringify(x) + s)[0] == Stringify(x)[0] && (Stringify(y) + t)[0] == Stringify(y)[0];
    match x
    case Null => SkipSame("null", s, t);
    case Bool(b) => SkipSame(Stringify(x), s, t);
    case Num(a) => NumberReadable(a, s, y.text, t);
    case Str(a) => QuoteReadable(a, s, y.s, t);
    case Arr(items) =>
      Associate("[", ItemsText(items), s);
      Associate("[", ItemsText(y.items), t);
      SameHead('[', ItemsText(items) + s, '[', ItemsText(y.items) + t);
      ItemsReadable(items, s, y.items, t);
    case Obj(members) =>
      Associate("{", MembersText(members), s);
      Associate("{", MembersText(y.members), t);
      SameHead('{', MembersText(members) + s, '{', MembersText(y.members) + t);
      MembersReadable(members, s, y.members, t);
  }

  lemma SkipSame(a: string, s: string, t: string)
    requires a + s == a + t
    ensures s == t
  {
    assert (a + s)[|a|..] == s && (a + t)[|a|..] == t;
  }

  ghost predicate AllPrintable(items: seq<Json>) {
    forall i :: 0 <= i < |items| ==> Printable(items[i])
  }

  ghost predicate MembersPrintable(members: seq<Member>) {
    forall i :: 0 <= i < |members| ==> Printable(members[i].value)
  }

  lemma ItemsHead(items: seq<Json>, s: string)
    requires AllPrintable(items)
    ensures (ItemsText(items) + s)[0] == ']' <==> items == []
  {
    if items != [] {
      FirstCharTellsKind(items[0]);
    }
  }

  lemma {:induction false} ItemsReadable(xs: seq<Json>, s: string, ys: seq<Json>, t: string)
    requires AllPrintable(xs) && AllPrintable(ys)
    requires ItemsText(xs) + s == ItemsText(ys) + t
    ensures xs == ys && s == t
    decreases xs, 0
  {
    ItemsHead(xs, s);
    ItemsHead(ys, t);
    if xs == [] {
      SameHead(']', s, ']', t);
    } else {
      Associate(Stringify(xs[0]), AfterItem(xs[1..]), s);
      Associate(Stringify(ys[0]), AfterItem(ys[1..]), t);
      TextReadable(xs[0], AfterItem(xs[1..]) + s, ys[0], AfterItem(ys[1..]) + t);
      assert (AfterItem(xs[1..]) + s)[0] == AfterItem(xs[1..])[0];
      assert (AfterItem(ys[1..]) + t)[0] == AfterItem(ys[1..])[0];
      if xs[1..] == [] {
        SameHead(']', s, ']', t);
      } else {
        Associate(",", ItemsText(xs[1..]), s);
        Associate(",", ItemsText(ys[1..]), t);
        SameHead(',', ItemsText(xs[1..]) + s, ',', ItemsText(ys[1..]) + t);
        ItemsReadable(xs[1..], s, ys[1..], t);
      }
      assert xs == [xs[0]] + xs[1..] && ys == [ys[0]] + ys[1..];
    }
  }

  /** The text of a non-empty member list, taken apart. */
  lemma MembersParts(members: seq<Member>, s: string)
    requires members != []
    ensures MembersText(members) + s
         == Quote(members[0].key) + ([':'] + (Stringify(members[0].value) + (AfterMember(members[1..]) + s)))
  {
    var value := Stringify(members[0].value) + AfterMember(members[1..]);
    Associate(Quote(members[0].key), ":" + value, s);
    Associate(":", value, s);
    Associate(Stringify(members[0].value), AfterMember(members[1..]), s);
  }

  lemma {:induction false} MembersReadable(xs: seq<Member>, s: string, ys: seq<Member>, t: string)
    requires MembersPrintable(xs) && MembersPrintable(ys)
    requires MembersText(xs) + s == MembersText(ys) + t
    ensures xs == ys && s == t
    decreases xs, 0
  {
    assert (MembersText(xs) + s)[0] == MembersText(xs)[0] && (MembersText(ys) + t)[0] == MembersText(ys)[0];
    if xs == [] {
      SameHead('}', s, '}', t);
    } else {
      MembersParts(xs, s);
      MembersParts(ys, t);
      var restX := AfterMember(xs[1..]) + s;
      var restY := AfterMember(ys[1..]) + t;
      QuoteReadable(xs[0].key, [':'] + (Stringify(xs[0].value) + restX),
                    ys[0].key, [':'] + (Stringify(ys[0].value) + restY));
      SameHead(':', Stringify(xs[0].value) + restX, ':', Stringify(ys[0].value) + restY);
      TextReadable(xs[0].value, restX, ys[0].value, restY);
      assert restX[0] == AfterMember(xs[1..])[0] && restY[0] == AfterMember(ys[1..])[0];
      if xs[1..] == [] {
        SameHead('}', s, '}', t);
      } else {
        Associate(",", MembersText(xs[1..]), s);
        Associate(",", MembersText(ys[1..]), t);
        SameHead(',', MembersText(xs[1..]) + s, ',', MembersText(ys[1..]) + t);
        MembersReadable(xs[1..], s, ys[1..], t);
      }
      assert xs == [xs[0]] + xs[1..] && ys == [ys[0]] + ys[1..];
    }
  }

  /** Printing is injective. */
  lemma SameTextSameValue(x: Json, y: Json)
    requires Printable(x) && Printable(y)
    ensures Stringify(x) == Stringify(y) <==> x == y
  {
    if Stringify(x) == Stringify(y) {
      assert Stringify(x) + "" == Stringify(x) && Stringify(y) + "" == Stringify(y);
      TextReadable(x, "", y, "");
    }
  }

  /** No value's text ends with a comma. */
  lemma {:induction false} LastCharIsNoComma(x: Json)
    requires Printable(x)
    ensures var text := Stringify(x); text != [] && text[|text| - 1] != ','
    decreases x, 1
  {
    match x
    case Arr(items) => ClosedBy(items);
    case Obj(members) => BracedBy(members);
    case _ =>
  }

  lemma {:induction false} ClosedBy(items: seq<Json>)
    ensures ItemsText(items)[|ItemsText(items)| - 1] == ']'
    decreases items, 0
  {
    if |items| > 1 {
      ClosedBy(items[1..]);
    }
  }

  /** Before an object's closing brace stands a member's last character, never a comma. */
  lemma {:induction false} BracedBy(members: seq<Member>)
    requires MembersPrintable(members)
    ensures var text := MembersText(members);
      text[|text| - 1] == '}' && (members != [] ==> |text| >= 2 && text[|text| - 2] != ',')
    decreases members, 0
  {
    if |members| == 1 {
      LastCharIsNoComma(members[0].value);
    } else if |members| > 1 {
      BracedBy(members[1..]);
      var rest := MembersText(members[1..]);
      var text := MembersText(members);
      var front := Quote(members[0].key) + ":" + Stringify(members[0].value) + ",";
      assert text == front + rest;
    }
  }
}
