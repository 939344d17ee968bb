/** Compact JSON text, as `serde_json::Value` prints it, and its unique readability. */
module Json {
  import opened Basics

  predicate IsDigit(c: char) { '0' <= c <= '9' }

  predicate IsNumberChar(c: char) { IsDigit(c) || c == '-' || c == '+' || c == '.' || c == 'e' || c == 'E' }

  predicate IsNumberText(s: string) {
    s != "" && (IsDigit(s[0]) || s[0] == '-') && forall k | 0 <= k < |s| :: IsNumberChar(s[k])
  }

  /** A number is identified with its printed form. */
  type NumberText = s: string | IsNumberText(s) witness "0"

  datatype Value =
    | Null
    | Bool(b: bool)
    | Number(text: NumberText)
    | String(s: string)
    | Array(items: seq<Value>)
    | Object(members: seq<Member>)

  /** Members in printing order. */
  datatype Member = Member(key: string, value: Value)

  // ---------------------------------------------------------------- printing

  function HexDigit(n: nat): char
    requires n < 16
  {
    if n < 10 then '0' + n as char else 'a' + (n - 10) as char
  }

  /** One character inside a JSON string (RFC 8259, section 7). */
  function EscapeChar(c: char): (e: string)
    ensures e != "" && e[0] != '"'
  {
    var n := c as int;
    if c == '"' then "\\\""
    else if c == '\\' then "\\\\"
    else if n == 8 then "\\b"
    else if n == 9 then "\\t"
    else if n == 10 then "\\n"
    else if n == 12 then "\\f"
    else if n == 13 then "\\r"
    else if n < 32 then "\\u00" + [HexDigit(n / 16), HexDigit(n % 16)]
    else [c]
  }

  function Escape(s: string): string {
    if s == "" then "" else EscapeChar(s[0]) + Escape(s[1..])
  }

  function Quote(s: string): string { "\"" + Escape(s) + "\"" }

  function Text(v: Value): string
    decreases v, 1
  {
    match v
    case Null => "null"
    case Bool(b) => if b then "true" else "false"
    case Number(t) => t
    case String(s) => Quote(s)
    case Array(items) => "[" + ItemsText(items) + "]"
    case Object(members) => "{" + MembersText(members) + "}"
  }

  function ItemsText(items: seq<Value>): string
    decreases items, 0
  {
    if items == [] then "" else Text(items[0]) + ItemsTail(items[1..])
  }

  /** The remaining items, each after a comma. */
  function ItemsTail(items: seq<Value>): string
    decreases items, 0
  {
    if items == [] then "" else "," + (Text(items[0]) + ItemsTail(items[1..]))
  }

  function MemberText(m: Member): string
    decreases m, 0
  {
    Quote(m.key) + (":" + Text(m.value))
  }

  function MembersText(members: seq<Member>): string
    decreases members, 1
  {
    if members == [] then "" else MemberText(members[0]) + MembersTail(members[1..])
  }

  function MembersTail(members: seq<Member>): string
    decreases members, 1
  {
    if members == [] then "" else "," + (MemberText(members[0]) + MembersTail(members[1..]))
  }

  lemma {:induction false} ItemsTailSnoc(items: seq<Value>, v: Value)
    ensures ItemsTail(items + [v]) == ItemsTail(items) + ("," + Text(v))
  {
    if items == [] {
      assert items + [v] == [v] && [v][1..] == [];
      assert ItemsTail([v]) == "," + (Text(v) + "");
    } else {
      assert (items + [v])[0] == items[0] && (items + [v])[1..] == items[1..] + [v];
      ItemsTailSnoc(items[1..], v);
      RegroupFour(",", Text(items[0]), ItemsTail(items[1..]), "," + Text(v));
    }
  }

  lemma {:induction false} MembersTailSnoc(members: seq<Member>, m: Member)
    ensures MembersTail(members + [m]) == MembersTail(members) + ("," + MemberText(m))
  {
    if members == [] {
      assert members + [m] == [m] && [m][1..] == [];
      assert MembersTail([m]) == "," + (MemberText(m) + "");
    } else {
      assert (members + [m])[0] == members[0] && (members + [m])[1..] == members[1..] + [m];
      MembersTailSnoc(members[1..], m);
      RegroupFour(",", MemberText(members[0]), MembersTail(members[1..]), "," + MemberText(m));
    }
  }

  /** The text between the brackets grows by a comma and the text of what is added. */
  lemma ListsGrow(items: seq<Value>, v: Value, members: seq<Member>, m: Member)
    ensures ItemsText([v]) == Text(v) && MembersText([m]) == MemberText(m)
    ensures items != [] ==> ItemsText(items + [v]) == ItemsText(items) + ("," + Text(v))
    ensures members != [] ==> MembersText(members + [m]) == MembersText(members) + ("," + MemberText(m))
  {
    assert [v][1..] == [] && [m][1..] == [];
    if items != [] {
      assert (items + [v])[0] == items[0] && (items + [v])[1..] == items[1..] + [v];
      ItemsTailSnoc(items[1..], v);
      Regroup(Text(items[0]), ItemsTail(items[1..]), "," + Text(v));
    }
    if members != [] {
      assert (members + [m])[0] == members[0] && (members + [m])[1..] == members[1..] + [m];
      MembersTailSnoc(members[1..], m);
      Regroup(MemberText(members[0]), MembersTail(members[1..]), "," + MemberText(m));
    }
  }

  /** What compact JSON looks like: the three words, a number as it is, quoted strings, and
      brackets around the items or the members, whose keys are quoted and end in a colon. */
  lemma TextForms(t: NumberText, s: string, items: seq<Value>, members: seq<Member>, key: string, v: Value)
    ensures Text(Null) == "null" && Text(Bool(true)) == "true" && Text(Bool(false)) == "false"
    ensures Text(Number(t)) == t && Text(String(s)) == "\"" + Escape(s) + "\""
    ensures Text(Array([])) == "[]" && Text(Object([])) == "{}"
    ensures Text(Array(items)) == "[" + ItemsText(items) + "]"
    ensures Text(Object(members)) == "{" + MembersText(members) + "}"
    ensures MemberText(Member(key, v)) == "\"" + Escape(key) + "\":" + Text(v)
  {
    assert Quote(key) + (":" + Text(v)) == "\"" + Escape(key) + "\":" + Text(v);
  }

  // ---------------------------------------------------------------- strings as the standard reads them

  function HexValue(c: char): Option<nat> {
    if '0' <= c <= '9' then Some((c - '0') as nat)
    else if 'a' <= c <= 'f' then Some(10 + (c - 'a') as nat)
    else if 'A' <= c <= 'F' then Some(10 + (c - 'A') as nat)
    else None
  }

  /** What follows a backslash: the character it stands for, and its length (RFC 8259,
      section 7; surrogates apart, which the printer does not use). */
  function AfterBackslash(t: string): Option<(char, nat)> {
    if t == "" then None
    else match t[0]
      case '"' => Some(('"', 1))
      case '\\' => Some(('\\', 1))
      case '/' => Some(('/', 1))
      case 'b' => Some((8 as char, 1))
      case 'f' => Some((12 as char, 1))
      case 'n' => Some((10 as char, 1))
      case 'r' => Some((13 as char, 1))
      case 't' => Some((9 as char, 1))
      case 'u' =>
        if |t| < 5 then None
        else if HexValue(t[1]) != Some(0) || HexValue(t[2]) != Some(0) then None
        else if HexValue(t[3]).None? || HexValue(t[4]).None? then None
        else Some(((16 * HexValue(t[3]).value + HexValue(t[4]).value) as char, 5))
      case _ => None
  }

  /** The text between the quotes of a JSON string, read back. */
  function Unescape(t: string): Option<string>
    decreases |t|
  {
    if t == "" then Some("")
    else if t[0] == '"' || t[0] as int < 0x20 then None
    else
      var first := if t[0] == '\\' then AfterBackslash(t[1..]) else Some((t[0], 0));
      if first.None? || first.value.1 + 1 > |t| then None else
        match Unescape(t[first.value.1 + 1..])
        case None => None
        case Some(rest) => Some([first.value.0] + rest)
  }

  lemma CharReadBack(c: char, t: string)
    ensures Unescape(EscapeChar(c) + t) == match Unescape(t)
      case None => None
      case Some(rest) => Some([c] + rest)
  {
    var e := EscapeChar(c);
    assert (e + t)[|e|..] == t && (e + t)[0] == e[0];
    if e[0] == '\\' {
      assert (e + t)[1..] == e[1..] + t;
      EscapeReadBack(c, t);
    }
  }

  lemma EscapeReadBack(c: char, t: string)
    requires EscapeChar(c)[0] == '\\'
    ensures AfterBackslash(EscapeChar(c)[1..] + t) == Some((c, |EscapeChar(c)| - 1))
  {
    var n, rest := c as int, EscapeChar(c)[1..] + t;
    assert forall k | 0 <= k < |EscapeChar(c)| - 1 :: rest[k] == EscapeChar(c)[k + 1];
    if n < 32 {
      assert HexValue(HexDigit(n / 16)) == Some(n / 16) && HexValue(HexDigit(n % 16)) == Some(n % 16);
    }
  }

  /** A reader of the standard gets the string back that was printed. */
  lemma {:induction false} StringsReadBack(s: string)
    ensures Unescape(Escape(s)) == Some(s)
  {
    if s != "" {
      CharReadBack(s[0], Escape(s[1..]));
      StringsReadBack(s[1..]);
      assert s == [s[0]] + s[1..];
    }
  }

  // ---------------------------------------------------------------- strings read back

  lemma EscapeCharReadable(c: char, d: char, x: string, y: string)
    requires EscapeChar(c) + x == EscapeChar(d) + y
    ensures c == d && x == y
  {
    var ec, ed := EscapeChar(c), EscapeChar(d);
    assert ec[0] == (ec + x)[0] == (ed + y)[0] == ed[0];
    if ec[0] == '\\' {
      assert ec[1] == (ec + x)[1] == (ed + y)[1] == ed[1];
      if ec[1] == 'u' {
        assert ec[4] == (ec + x)[4] == (ed + y)[4] == ed[4];
        assert ec[5] == (ec + x)[5] == (ed + y)[5] == ed[5];
      }
    }
    assert c == d;
    assert x == (ec + x)[|ec|..] == (ed + y)[|ed|..] == y;
  }

  /** The closing quote is where an escaped string shows its first bare quote. */
  lemma QuotedHead(s: string, x: string)
    ensures (Escape(s) + "\"" + x)[0] == '"' <==> s == ""
    ensures s == "" ==> (Escape(s) + "\"" + x)[1..] == x
    ensures s != "" ==> Escape(s) + "\"" + x == EscapeChar(s[0]) + (Escape(s[1..]) + "\"" + x)
  {
    if s == "" {
      assert Escape(s) + "\"" + x == "\"" + x;
    } else {
      RegroupFour(EscapeChar(s[0]), Escape(s[1..]), "\"", x);
    }
  }

  lemma {:induction false} StringReadable(s: string, t: string, x: string, y: string)
    requires Escape(s) + "\"" + x == Escape(t) + "\"" + y
    ensures s == t && x == y
  {
    QuotedHead(s, x);
    QuotedHead(t, y);
    if s != "" {
      EscapeCharReadable(s[0], t[0], Escape(s[1..]) + "\"" + x, Escape(t[1..]) + "\"" + y);
      StringReadable(s[1..], t[1..], x, y);
      assert s == [s[0]] + s[1..] && t == [t[0]] + t[1..];
    }
  }

  lemma QuoteReadable(s: string, t: string, x: string, y: string)
    requires Quote(s) + x == Quote(t) + y
    ensures s == t && x == y
  {
    var a, b := Quote(s) + x, Quote(t) + y;
    assert a[1..] == Escape(s) + "\"" + x && b[1..] == Escape(t) + "\"" + y;
    StringReadable(s, t, x, y);
  }

  // ---------------------------------------------------------------- values read back

  /** What can follow a value: nothing, or a character no number contains. */
  predicate Ends(x: string) { x == "" || !IsNumberChar(x[0]) }

  lemma NumberReadable(a: NumberText, b: NumberText, x: string, y: string)
    requires a + x == b + y && Ends(x) && Ends(y)
    ensures a == b && x == y
  {
    var text := a + x;
    assert forall k | 0 <= k < |a| :: text[k] == a[k];
    assert forall k | 0 <= k < |b| :: text[k] == b[k];
    assert |a| < |text| ==> text[|a|] == x[0];
    assert |b| < |text| ==> text[|b|] == y[0];
    assert a == (a + x)[..|a|] && b == (b + y)[..|b|];
    assert x == (a + x)[|a|..] && y == (b + y)[|b|..];
  }

  /** The first character of a printed value tells its kind. */
  predicate StartsAs(v: Value, c: char) {
    match v
    case Null => c == 'n'
    case Bool(b) => c == (if b then 't' else 'f')
    case Number(_) => IsDigit(c) || c == '-'
    case String(_) => c == '"'
    case Array(_) => c == '['
    case Object(_) => c == '{'
  }

  lemma TextStarts(v: Value)
    ensures Text(v) != "" && StartsAs(v, Text(v)[0])
  {
  }

  lemma Dropped(t: string, x: string, y: string)
    requires t + x == t + y
    ensures x == y
  {
    assert x == (t + x)[|t|..] && y == (t + y)[|t|..];
  }

  lemma Peeled(open: string, body: string, close: string, x: string)
    requires |open| == 1
    ensures (open + body + close + x)[1..] == body + (close + x)
  {
  }

  /** A printed value is determined by any text that starts with it. */
  lemma {:induction false} ValueReadable(v: Value, w: Value, x: string, y: string)
    requires Text(v) + x == Text(w) + y && Ends(x) && Ends(y)
    ensures v == w && x == y
    decreases v, 1
  {
    var a, b := Text(v) + x, Text(w) + y;
    TextStarts(v);
    TextStarts(w);
    assert a[0] == Text(v)[0] && b[0] == Text(w)[0];
    match v
    case Null => Dropped("null", x, y);
    case Bool(t) => Dropped(Text(v), x, y);
    case Number(t) => NumberReadable(t, w.text, x, y);
    case String(s) => QuoteReadable(s, w.s, x, y);
    case Array(items) =>
      Peeled("[", ItemsText(items), "]", x);
      Peeled("[", ItemsText(w.items), "]", y);
      ItemsReadable(items, w.items, x, y);
    case Object(members) =>
      Peeled("{", MembersText(members), "}", x);
      Peeled("{", MembersText(w.members), "}", y);
      MembersReadable(members, w.members, x, y);
  }

  lemma {:induction false} ItemsReadable(vs: seq<Value>, ws: seq<Value>, x: string, y: string)
    requires ItemsText(vs) + ("]" + x) == ItemsText(ws) + ("]" + y)
    ensures vs == ws && x == y
    decreases vs, 0
  {
    var a, b := ItemsText(vs) + ("]" + x), ItemsText(ws) + ("]" + y);
    ItemsHead(vs, x);
    ItemsHead(ws, y);
    if vs != [] {
      var p, q := ItemsTail(vs[1..]) + ("]" + x), ItemsTail(ws[1..]) + ("]" + y);
      assert a == Text(vs[0]) + p && b == Text(ws[0]) + q;
      ValueReadable(vs[0], ws[0], p, q);
      ItemsTailReadable(vs[1..], ws[1..], x, y);
      assert vs == [vs[0]] + vs[1..] && ws == [ws[0]] + ws[1..];
    }
  }

  lemma ItemsHead(vs: seq<Value>, x: string)
    ensures (ItemsText(vs) + ("]" + x))[0] == ']' <==> vs == []
    ensures vs == [] ==> (ItemsText(vs) + ("]" + x))[1..] == x
  {
    if vs != [] {
      TextStarts(vs[0]);
      assert (ItemsText(vs) + ("]" + x))[0] == Text(vs[0])[0];
    }
  }

  lemma {:induction false} ItemsTailReadable(vs: seq<Value>, ws: seq<Value>, x: string, y: string)
    requires ItemsTail(vs) + ("]" + x) == ItemsTail(ws) + ("]" + y)
    ensures vs == ws && x == y
    decreases vs, 0
  {
    ItemsTailHead(vs, x);
    ItemsTailHead(ws, y);
    if vs != [] {
      var p, q := ItemsTail(vs[1..]) + ("]" + x), ItemsTail(ws[1..]) + ("]" + y);
      assert Text(vs[0]) + p == Text(ws[0]) + q;
      ValueReadable(vs[0], ws[0], p, q);
      ItemsTailReadable(vs[1..], ws[1..], x, y);
      assert vs == [vs[0]] + vs[1..] && ws == [ws[0]] + ws[1..];
    }
  }

  lemma ItemsTailHead(vs: seq<Value>, x: string)
    ensures (ItemsTail(vs) + ("]" + x))[0] == (if vs == [] then ']' else ',')
    ensures (ItemsTail(vs) + ("]" + x))[1..]
         == if vs == [] then x else Text(vs[0]) + (ItemsTail(vs[1..]) + ("]" + x))
  {
  }

  lemma KeySplit(key: string, text: string, x: string)
    ensures key + (":" + text) + x == key + (":" + text + x)
    ensures (":" + text + x)[1..] == text + x
  {
  }

  lemma {:induction false} MemberReadable(m: Member, n: Member, x: string, y: string)
    requires MemberText(m) + x == MemberText(n) + y && Ends(x) && Ends(y)
    ensures m == n && x == y
    decreases m, 0
  {
    var p, q := ":" + Text(m.value) + x, ":" + Text(n.value) + y;
    KeySplit(Quote(m.key), Text(m.value), x);
    KeySplit(Quote(n.key), Text(n.value), y);
    QuoteReadable(m.key, n.key, p, q);
    ValueReadable(m.value, n.value, x, y);
  }

  lemma {:induction false} MembersReadable(ms: seq<Member>, ns: seq<Member>, x: string, y: string)
    requires MembersText(ms) + ("}" + x) == MembersText(ns) + ("}" + y)
    ensures ms == ns && x == y
    decreases ms, 1
  {
    MembersHead(ms, x);
    MembersHead(ns, y);
    if ms != [] {
      var p, q := MembersTail(ms[1..]) + ("}" + x), MembersTail(ns[1..]) + ("}" + y);
      MemberReadable(ms[0], ns[0], p, q);
      MembersTailReadable(ms[1..], ns[1..], x, y);
      assert ms == [ms[0]] + ms[1..] && ns == [ns[0]] + ns[1..];
    }
  }

  lemma MembersHead(ms: seq<Member>, x: string)
    ensures (MembersText(ms) + ("}" + x))[0] == (if ms == [] then '}' else '"')
    ensures ms == [] ==> (MembersText(ms) + ("}" + x))[1..] == x
    ensures ms != [] ==> MembersText(ms) + ("}" + x) == MemberText(ms[0]) + (MembersTail(ms[1..]) + ("}" + x))
  {
  }

  lemma {:induction false} MembersTailReadable(ms: seq<Member>, ns: seq<Member>, x: string, y: string)
    requires MembersTail(ms) + ("}" + x) == MembersTail(ns) + ("}" + y)
    ensures ms == ns && x == y
    decreases ms, 1
  {
    MembersTailHead(ms, x);
    MembersTailHead(ns, y);
    if ms != [] {
      var p, q := MembersTail(ms[1..]) + ("}" + x), MembersTail(ns[1..]) + ("}" + y);
      assert MemberText(ms[0]) + p == MemberText(ns[0]) + q;
      MemberReadable(ms[0], ns[0], p, q);
      MembersTailReadable(ms[1..], ns[1..], x, y);
      assert ms == [ms[0]] + ms[1..] && ns == [ns[0]] + ns[1..];
    }
  }

  lemma MembersTailHead(ms: seq<Member>, x: string)
    ensures (MembersTail(ms) + ("}" + x))[0] == (if ms == [] then '}' else ',')
    ensures (MembersTail(ms) + ("}" + x))[1..]
         == if ms == [] then x else MemberText(ms[0]) + (MembersTail(ms[1..]) + ("}" + x))
  {
  }

  // ---------------------------------------------------------------- quotes and depth

  datatype Mode = Outside | Inside | Escaped

  /** Where a left-to-right reader of JSON text stands. */
  datatype Reader = Reader(mode: Mode, depth: int)

  function Read(r: Reader, c: char): Reader {
    match r.mode
    case Outside =>
      if c == '"' then r.(mode := Inside)
      else if c == '[' || c == '{' then r.(depth := r.depth + 1)
      else if c == ']' || c == '}' then r.(depth := r.depth - 1)
      else r
    case Inside => if c == '"' then r.(mode := Outside) else if c == '\\' then r.(mode := Escaped) else r
    case Escaped => r.(mode := Inside)
  }

  function ReadAll(r: Reader, text: string): Reader
    decreases |text|
  {
    if text == "" then r else ReadAll(Read(r, text[0]), text[1..])
  }

  /** Outside strings, `text` has no backslash, and colons only deeper than `floor`. */
  predicate Tidy(r: Reader, floor: int, text: string)
    decreases |text|
  {
    text == ""
    || (&& (r.mode == Outside ==> text[0] != '\\' && (text[0] == ':' ==> r.depth > floor))
        && Tidy(Read(r, text[0]), floor, text[1..]))
  }

  lemma {:induction false} ReadSplit(r: Reader, floor: int, a: string, b: string)
    ensures ReadAll(r, a + b) == ReadAll(ReadAll(r, a), b)
    ensures Tidy(r, floor, a + b) <==> Tidy(r, floor, a) && Tidy(ReadAll(r, a), floor, b)
    decreases |a|
  {
    if a == "" {
      assert a + b == b;
    } else {
      assert (a + b)[0] == a[0] && (a + b)[1..] == a[1..] + b;
      ReadSplit(Read(r, a[0]), floor, a[1..], b);
    }
  }

  /** `text` leaves the reader where it was, tidily. */
  predicate Neutral(r: Reader, floor: int, text: string) { ReadAll(r, text) == r && Tidy(r, floor, text) }

  lemma NeutralJoin(r: Reader, floor: int, a: string, b: string)
    requires Neutral(r, floor, a) && Neutral(r, floor, b)
    ensures Neutral(r, floor, a + b)
  {
    ReadSplit(r, floor, a, b);
  }

  lemma NeutralChar(r: Reader, floor: int, c: char)
    requires r.mode == Outside && c != '"' && c != '\\' && c != '[' && c != ']' && c != '{' && c != '}'
    requires c == ':' ==> r.depth > floor
    ensures Neutral(r, floor, [c])
  {
  }

  /** A bracketed text is neutral when its inside is neutral one level deeper. */
  lemma NeutralBracket(r: Reader, floor: int, open: char, body: string, close: char)
    requires r.mode == Outside && (open == '[' || open == '{') && (close == ']' || close == '}')
    requires Neutral(r.(depth := r.depth + 1), floor, body)
    ensures Neutral(r, floor, [open] + body + [close])
  {
    var deep := r.(depth := r.depth + 1);
    assert ReadAll(r, [open]) == deep && Tidy(r, floor, [open]);
    assert ReadAll(deep, [close]) == r && Tidy(deep, floor, [close]);
    ReadSplit(r, floor, [open], body);
    ReadSplit(r, floor, [open] + body, [close]);
  }

  lemma {:induction false} NeutralNumber(r: Reader, floor: int, t: string)
    requires r.mode == Outside && forall k | 0 <= k < |t| :: IsNumberChar(t[k])
    ensures Neutral(r, floor, t)
  {
    if t != "" {
      NeutralNumber(r, floor, t[1..]);
    }
  }

  lemma EscapeCharStaysInside(r: Reader, floor: int, c: char)
    requires r.mode == Inside
    ensures Neutral(r, floor, EscapeChar(c))
  {
    var e := EscapeChar(c);
    if |e| == 1 {
    } else if |e| == 2 {
      assert e == [e[0], e[1]];
      ReadSplit(r, floor, [e[0]], [e[1]]);
    } else {
      var escaped := r.(mode := Escaped);
      assert e == ['\\'] + (['u'] + (['0'] + (['0'] + ([e[4]] + [e[5]]))));
      ReadSplit(r, floor, [e[4]], [e[5]]);
      ReadSplit(r, floor, ['0'], [e[4]] + [e[5]]);
      ReadSplit(r, floor, ['0'], ['0'] + ([e[4]] + [e[5]]));
      ReadSplit(escaped, floor, ['u'], ['0'] + (['0'] + ([e[4]] + [e[5]])));
      ReadSplit(r, floor, ['\\'], ['u'] + (['0'] + (['0'] + ([e[4]] + [e[5]]))));
    }
  }

  lemma {:induction false} EscapeStaysInside(r: Reader, floor: int, s: string)
    requires r.mode == Inside
    ensures Neutral(r, floor, Escape(s))
  {
    if s != "" {
      EscapeCharStaysInside(r, floor, s[0]);
      EscapeStaysInside(r, floor, s[1..]);
      NeutralJoin(r, floor, EscapeChar(s[0]), Escape(s[1..]));
    }
  }

  lemma NeutralQuote(r: Reader, floor: int, s: string)
    requires r.mode == Outside
    ensures Neutral(r, floor, Quote(s))
  {
    var inside := r.(mode := Inside);
    EscapeStaysInside(inside, floor, s);
    assert ReadAll(r, "\"") == inside && Tidy(r, floor, "\"");
    assert ReadAll(inside, "\"") == r && Tidy(inside, floor, "\"");
    ReadSplit(r, floor, "\"", Escape(s));
    ReadSplit(r, floor, "\"" + Escape(s), "\"");
  }

  lemma NeutralWord(r: Reader, floor: int)
    requires r.mode == Outside
    ensures Neutral(r, floor, "null") && Neutral(r, floor, "true") && Neutral(r, floor, "false")
  {
    NeutralLetters(r, floor, "null");
    NeutralLetters(r, floor, "true");
    NeutralLetters(r, floor, "false");
  }

  lemma {:induction false} NeutralLetters(r: Reader, floor: int, t: string)
    requires r.mode == Outside && forall k | 0 <= k < |t| :: 'a' <= t[k] <= 'z'
    ensures Neutral(r, floor, t)
  {
    if t != "" {
      NeutralLetters(r, floor, t[1..]);
    }
  }

  /** Printed values keep quotes and brackets balanced; their colons are in strings or deeper. */
  lemma {:induction false} NeutralText(r: Reader, floor: int, v: Value)
    requires r.mode == Outside && r.depth >= floor
    ensures Neutral(r, floor, Text(v))
    decreases v, 1
  {
    var deep := r.(depth := r.depth + 1);
    match v
    case Null => NeutralWord(r, floor);
    case Bool(_) => NeutralWord(r, floor);
    case Number(t) => NeutralNumber(r, floor, t);
    case String(s) => NeutralQuote(r, floor, s);
    case Array(items) =>
      if items != [] {
        NeutralText(deep, floor, items[0]);
        NeutralItems(deep, floor, items[1..]);
        NeutralJoin(deep, floor, Text(items[0]), ItemsTail(items[1..]));
      }
      NeutralBracket(r, floor, '[', ItemsText(items), ']');
    case Object(members) =>
      if members != [] {
        NeutralMember(deep, floor, members[0]);
        NeutralMembers(deep, floor, members[1..]);
        NeutralJoin(deep, floor, MemberText(members[0]), MembersTail(members[1..]));
      }
      NeutralBracket(r, floor, '{', MembersText(members), '}');
  }

  lemma {:induction false} NeutralItems(r: Reader, floor: int, vs: seq<Value>)
    requires r.mode == Outside && r.depth >= floor
    ensures Neutral(r, floor, ItemsTail(vs))
    decreases vs, 0
  {
    if vs != [] {
      NeutralText(r, floor, vs[0]);
      NeutralItems(r, floor, vs[1..]);
      NeutralJoin(r, floor, Text(vs[0]), ItemsTail(vs[1..]));
      NeutralChar(r, floor, ',');
      NeutralJoin(r, floor, ",", Text(vs[0]) + ItemsTail(vs[1..]));
    }
  }

  lemma {:induction false} NeutralMember(r: Reader, floor: int, m: Member)
    requires r.mode == Outside && r.depth > floor
    ensures Neutral(r, floor, MemberText(m))
    decreases m, 0
  {
    NeutralText(r, floor, m.value);
    NeutralQuote(r, floor, m.key);
    NeutralChar(r, floor, ':');
    NeutralJoin(r, floor, ":", Text(m.value));
    NeutralJoin(r, floor, Quote(m.key), ":" + Text(m.value));
  }

  lemma {:induction false} NeutralMembers(r: Reader, floor: int, ms: seq<Member>)
    requires r.mode == Outside && r.depth > floor
    ensures Neutral(r, floor, MembersTail(ms))
    decreases ms, 1
  {
    if ms != [] {
      NeutralMember(r, floor, ms[0]);
      NeutralMembers(r, floor, ms[1..]);
      NeutralJoin(r, floor, MemberText(ms[0]), MembersTail(ms[1..]));
      NeutralChar(r, floor, ',');
      NeutralJoin(r, floor, ",", MemberText(ms[0]) + MembersTail(ms[1..]));
    }
  }

  // ---------------------------------------------------------------- no value hides behind a colon

  /** Two readers of one tidy text, one inside a string and one outside, never agree. */
  lemma {:induction false} OppositeModes(r: Reader, q: Reader, floor: int, text: string)
    requires (r.mode == Inside && q.mode == Outside) || (r.mode == Outside && q.mode == Inside)
    requires Tidy(r, floor, text) && Tidy(q, floor, text)
    ensures ReadAll(r, text).mode != ReadAll(q, text).mode
    decreases |text|
  {
    if text != "" {
      OppositeModes(Read(r, text[0]), Read(q, text[0]), floor, text[1..]);
    }
  }

  lemma {:induction false} TidyBelow(r: Reader, floor: int, lower: int, text: string)
    requires Tidy(r, floor, text) && lower <= floor
    ensures Tidy(r, lower, text)
    decreases |text|
  {
    if text != "" {
      TidyBelow(Read(r, text[0]), floor, lower, text[1..]);
    }
  }

  lemma ReadColon(r: Reader, a: string, text: string)
    ensures ReadAll(r, a + ":" + text) == ReadAll(Read(ReadAll(r, a), ':'), text)
    ensures Tidy(r, 0, a + ":" + text) ==> Tidy(Read(ReadAll(r, a), ':'), 0, text)
    ensures Tidy(r, 0, a + ":" + text) && ReadAll(r, a).mode == Outside ==> ReadAll(r, a).depth > 0
  {
    assert a + ":" + text == a + (":" + text);
    ReadSplit(r, 0, a, ":" + text);
    assert (":" + text)[1..] == text;
  }

  /** No printed value ends in a colon followed by a printed value. */
  lemma NoValueAfterColon(v: Value, w: Value, a: string)
    ensures Text(v) != a + ":" + Text(w)
  {
    if Text(v) == a + ":" + Text(w) {
      var start := Reader(Outside, 0);
      var before := ReadAll(start, a);
      var after := Read(before, ':');
      NeutralText(start, 0, v);
      ReadColon(start, a, Text(w));
      if before.mode == Outside {
        NeutralText(after, 0, w);
      } else {
        NeutralText(start, 0, w);
        OppositeModes(after, start, 0, Text(w));
      }
    }
  }
}
