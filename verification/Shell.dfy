/** Two quote automata over one command line: the splitter the policy layer uses
    (src/server.rs, src/tools/system.rs) and the meta-character gate of the shell tool. */
module Shell {
  import opened Basics
  import opened ShellText

  // ---------------------------------------------------------------- quotes

  datatype Quote = Bare | InSingle | InDouble

  /** The quote state after `c`. */
  function Next(q: Quote, c: char): Quote {
    match q
    case Bare => if c == '\'' then InSingle else if c == '"' then InDouble else Bare
    case InSingle => if c == '\'' then Bare else InSingle
    case InDouble => if c == '"' then Bare else InDouble
  }

  /** The two flags of the source; they are never both set. */
  function FromFlags(inSingle: bool, inDouble: bool): Quote {
    if inSingle then InSingle else if inDouble then InDouble else Bare
  }

  function NextAll(q: Quote, s: string): Quote
    decreases |s|
  {
    if s == "" then q else NextAll(Next(q, s[0]), s[1..])
  }

  predicate IsOperator(c: char) { c == ';' || c == '\n' || c == '|' || c == '&' }

  predicate IsMeta(c: char) {
    IsOperator(c) || c == '\r' || c == '(' || c == ')' || c == '<' || c == '>'
  }

  /** Some character satisfies `cls` outside quotes, when `s` starts in state `q`. */
  predicate HasUnquoted(s: string, q: Quote, cls: char -> bool)
    decreases |s|
  {
    s != "" && ((q.Bare? && cls(s[0])) || HasUnquoted(s[1..], Next(q, s[0]), cls))
  }

  // ---------------------------------------------------------------- what the automaton sees

  function QuoteChar(q: Quote): char
    requires !q.Bare?
  {
    if q.InSingle? then '\'' else '"'
  }

  /** Inside quotes nothing happens until the same quote comes again. */
  lemma {:induction false} InsideQuotes(q: Quote, t: string)
    requires !q.Bare?
    ensures NextAll(q, t).Bare?
       <==> exists k :: 0 <= k < |t| && EndsQuote(QuoteChar(q), t, k) && NextAll(Bare, t[k + 1..]).Bare?
    decreases |t|
  {
    if t != "" {
      var rest := t[1..];
      if t[0] == QuoteChar(q) {
        assert t[..0] == "" && t[0 + 1..] == rest && EndsQuote(QuoteChar(q), t, 0);
        assert forall k | 0 < k < |t| :: t[..k][0] == QuoteChar(q);
      } else {
        InsideQuotes(q, rest);
        forall k | 0 <= k < |rest| ensures EndsQuote(QuoteChar(q), rest, k) <==> EndsQuote(QuoteChar(q), t, k + 1) {
          assert t[..k + 1] == [t[0]] + rest[..k];
        }
        if k :| 0 <= k < |rest| && EndsQuote(QuoteChar(q), rest, k) && NextAll(Bare, rest[k + 1..]).Bare? {
          assert t[(k + 1) + 1..] == rest[k + 1..];
          assert EndsQuote(QuoteChar(q), t, k + 1);
        }
        if k :| 0 <= k < |t| && EndsQuote(QuoteChar(q), t, k) && NextAll(Bare, t[k + 1..]).Bare? {
          assert t[k + 1..] == rest[(k - 1) + 1..];
          assert EndsQuote(QuoteChar(q), rest, k - 1);
        }
      }
    }
  }

  /** The automaton is outside quotes exactly after text whose quotes are all closed. */
  lemma {:induction false} BareMeansClosed(t: string)
    ensures NextAll(Bare, t).Bare? <==> Closed(t)
    decreases |t|
  {
    if t != "" {
      var q, rest := Next(Bare, t[0]), t[1..];
      if q.Bare? {
        BareMeansClosed(rest);
      } else {
        assert QuoteChar(q) == t[0];
        InsideQuotes(q, rest);
        if NextAll(q, rest).Bare? {
          var k :| 0 <= k < |rest| && EndsQuote(t[0], rest, k) && NextAll(Bare, rest[k + 1..]).Bare?;
          BareMeansClosed(rest[k + 1..]);
        }
        if k :| 0 <= k < |rest| && EndsQuote(t[0], rest, k) && Closed(rest[k + 1..]) {
          BareMeansClosed(rest[k + 1..]);
          assert EndsQuote(QuoteChar(q), rest, k) && NextAll(Bare, rest[k + 1..]).Bare?;
        }
      }
    }
  }

  lemma {:induction false} FoundAtBare(s: string, q: Quote, cls: char -> bool)
    ensures HasUnquoted(s, q, cls) <==> exists i :: 0 <= i < |s| && NextAll(q, s[..i]).Bare? && cls(s[i])
    decreases |s|
  {
    if s != "" {
      FoundAtBare(s[1..], Next(q, s[0]), cls);
      assert s[..0] == "";
      forall i | 0 < i < |s| ensures NextAll(q, s[..i]) == NextAll(Next(q, s[0]), s[1..][..i - 1]) && s[1..][i - 1] == s[i] {
        assert s[..i][0] == s[0] && s[..i][1..] == s[1..][..i - 1];
      }
      if i :| 0 <= i < |s[1..]| && NextAll(Next(q, s[0]), s[1..][..i]).Bare? && cls(s[1..][i]) {
        assert NextAll(q, s[..i + 1]).Bare? && cls(s[i + 1]);
      }
    }
  }

  /** Being seen outside quotes has nothing to do with the automaton. */
  lemma SeenIff(s: string, cls: char -> bool, chars: string)
    requires forall c :: cls(c) <==> c in chars
    ensures HasUnquoted(s, Bare, cls) <==> Unquoted(s, chars)
  {
    FoundAtBare(s, Bare, cls);
    forall i | 0 <= i < |s| ensures NextAll(Bare, s[..i]).Bare? <==> Closed(s[..i]) {
      BareMeansClosed(s[..i]);
    }
  }

  lemma MetaSeen(s: string)
    ensures HasUnquoted(s, Bare, IsMeta) <==> Unquoted(s, ";&|\n\r()<>")
  {
    SeenIff(s, IsMeta, ";&|\n\r()<>");
  }

  lemma OperatorSeen(s: string)
    ensures HasUnquoted(s, Bare, IsOperator) <==> Unquoted(s, ";\n|&")
  {
    SeenIff(s, IsOperator, ";\n|&");
  }

  /** `contains_unquoted_shell_meta`. */
  method ContainsUnquotedShellMeta(cmd: string) returns (found: bool)
    ensures found == HasUnquoted(cmd, Bare, IsMeta)
    ensures found == Unquoted(cmd, ";&|\n\r()<>")
  {
    MetaSeen(cmd);
    var inSingle, inDouble := false, false;
    for i := 0 to |cmd|
      invariant !(inSingle && inDouble)
      invariant HasUnquoted(cmd, Bare, IsMeta) == HasUnquoted(cmd[i..], FromFlags(inSingle, inDouble), IsMeta)
    {
      var c := cmd[i];
      assert cmd[i..][1..] == cmd[i + 1..];
      if c == '\'' && !inDouble {
        inSingle := !inSingle;
      } else if c == '"' && !inSingle {
        inDouble := !inDouble;
      } else if !inSingle && !inDouble && IsMeta(c) {
        return true;
      }
    }
    found := false;
  }

  // ---------------------------------------------------------------- blanks

  /** `char::is_whitespace`: the Unicode White_Space property. */
  predicate IsWhitespace(c: char) {
    var n := c as int;
    || 0x09 <= n <= 0x0D || n == 0x20 || n == 0x85 || n == 0xA0 || n == 0x1680 || 0x2000 <= n <= 0x200A
    || n == 0x2028 || n == 0x2029 || n == 0x202F || n == 0x205F || n == 0x3000
  }

  function TrimStart(s: string): string {
    if s != "" && IsWhitespace(s[0]) then TrimStart(s[1..]) else s
  }

  function TrimEnd(s: string): string {
    if s != "" && IsWhitespace(s[|s| - 1]) then TrimEnd(s[..|s| - 1]) else s
  }

  function Trim(s: string): string { TrimEnd(TrimStart(s)) }

  predicate Blank(s: string) { Trim(s) == "" }

  /** `split_whitespace().next()`, or the empty string. */
  function FirstWord(s: string): string {
    if s == "" then ""
    else if IsWhitespace(s[0]) then FirstWord(s[1..])
    else LeadingWord(s)
  }

  function LeadingWord(s: string): string {
    if s == "" || IsWhitespace(s[0]) then "" else [s[0]] + LeadingWord(s[1..])
  }

  lemma BlankListed(c: char)
    ensures IsWhitespace(c) <==> ListedBlank(c)
  {
  }

  lemma {:induction false} StartTrimmed(s: string) returns (lead: string)
    ensures s == lead + TrimStart(s) && OnlyBlanks(lead)
    ensures TrimStart(s) != "" ==> !ListedBlank(TrimStart(s)[0])
  {
    lead := "";
    if s != "" {
      BlankListed(s[0]);
      if IsWhitespace(s[0]) {
        lead := StartTrimmed(s[1..]);
        assert s == [s[0]] + lead + TrimStart(s[1..]);
        lead := [s[0]] + lead;
      }
    }
  }

  lemma {:induction false} EndTrimmed(s: string) returns (trail: string)
    ensures s == TrimEnd(s) + trail && OnlyBlanks(trail) && TrimEnd(s) <= s
    ensures TrimEnd(s) != "" ==> !ListedBlank(TrimEnd(s)[|TrimEnd(s)| - 1])
  {
    trail := "";
    if s != "" {
      var last := s[|s| - 1];
      BlankListed(last);
      if IsWhitespace(last) {
        trail := EndTrimmed(s[..|s| - 1]);
        assert s == s[..|s| - 1] + [last] == TrimEnd(s[..|s| - 1]) + (trail + [last]);
        trail := trail + [last];
      }
    }
  }

  /** Trimming takes off exactly the blanks around the text. */
  lemma TrimFrames(p: string) returns (lead: string, trail: string)
    ensures p == lead + Trim(p) + trail && OnlyBlanks(lead) && OnlyBlanks(trail)
    ensures Trim(p) != "" ==> Framed(p, lead, Trim(p), trail)
  {
    lead := StartTrimmed(p);
    var rest := TrimStart(p);
    trail := EndTrimmed(rest);
    Regroup(lead, TrimEnd(rest), trail);
    assert Trim(p) != "" ==> Trim(p)[0] == rest[0];
  }

  lemma FrameIsUnique(p: string, lead: string, core: string, trail: string, lead': string, core': string, trail': string)
    requires Framed(p, lead, core, trail) && Framed(p, lead', core', trail')
    ensures lead == lead' && core == core' && trail == trail'
  {
    NoLaterStart(p, lead, core, trail, lead', core', trail');
    NoLaterStart(p, lead', core', trail', lead, core, trail);
    var n := |lead|;
    assert lead == p[..n] == lead' && core + trail == p[n..] == core' + trail';
    NoLaterEnd(core, trail, core', trail');
    NoLaterEnd(core', trail', core, trail);
    assert core == (core + trail)[..|core|] == core' && trail == (core + trail)[|core|..] == trail';
  }

  lemma NoLaterStart(p: string, lead: string, core: string, trail: string, lead': string, core': string, trail': string)
    requires Framed(p, lead, core, trail) && Framed(p, lead', core', trail')
    ensures |lead| <= |lead'|
  {
    assert p[|lead'|] == core'[0];
    assert forall k | 0 <= k < |lead| :: p[k] == lead[k];
  }

  lemma NoLaterEnd(core: string, trail: string, core': string, trail': string)
    requires core + trail == core' + trail' && OnlyBlanks(trail') && core != "" && !ListedBlank(core[|core| - 1])
    ensures |core| <= |core'|
  {
    var whole, last := core + trail, |core| - 1;
    assert whole[last] == core[last];
    assert forall k | |core'| <= k < |whole| :: whole[k] == trail'[k - |core'|];
  }

  lemma {:induction false} LeadingWordIs(core: string)
    ensures IsFirstWord(core, LeadingWord(core))
  {
    if core != "" {
      BlankListed(core[0]);
      if !IsWhitespace(core[0]) {
        LeadingWordIs(core[1..]);
        assert LeadingWord(core) == [core[0]] + LeadingWord(core[1..]);
        assert core == [core[0]] + core[1..];
      }
    }
  }

  lemma FirstWordUnique(core: string, a: string, b: string)
    requires IsFirstWord(core, a) && IsFirstWord(core, b)
    ensures a == b
  {
    assert forall k | 0 <= k < |a| :: core[k] == a[k];
    assert forall k | 0 <= k < |b| :: core[k] == b[k];
    assert a == core[..|a|] && b == core[..|b|];
  }

  /** What the trimmed text and its first word are, for any part. */
  lemma AsksIff(p: string, binary: string, core: string)
    ensures Asks(p, binary, core) <==> !Blank(p) && core == Trim(p) && binary == FirstWord(Trim(p))
  {
    var lead, trail := TrimFrames(p);
    if !Blank(p) {
      BlankListed(Trim(p)[0]);
      LeadingWordIs(Trim(p));
      if Asks(p, binary, core) {
        var lead', trail' :| Framed(p, lead', core, trail');
        FrameIsUnique(p, lead, Trim(p), trail, lead', core, trail');
        FirstWordUnique(core, binary, FirstWord(core));
      }
    } else {
      BlankHasNoFrame(p, lead, trail);
    }
  }

  lemma BlankHasNoFrame(p: string, lead: string, trail: string)
    requires p == lead + trail && OnlyBlanks(lead) && OnlyBlanks(trail)
    ensures OnlyBlanks(p) && forall l, core, t :: !Framed(p, l, core, t)
  {
    FramesHoldInk(p);
  }

  lemma FramesHoldInk(p: string)
    ensures (exists l, core, t :: Framed(p, l, core, t)) ==> !OnlyBlanks(p)
  {
    if l, core, t :| Framed(p, l, core, t) {
      assert p[|l|] == core[0];
    }
  }

  /** A part is skipped only if it holds nothing but blanks. */
  lemma BlankIff(p: string)
    ensures Blank(p) <==> OnlyBlanks(p)
    ensures !OnlyBlanks(p) ==> Asks(p, FirstWord(Trim(p)), Trim(p))
  {
    var lead, trail := TrimFrames(p);
    if Blank(p) {
      BlankHasNoFrame(p, lead, trail);
    } else {
      assert p[|lead|] == Trim(p)[0];
      AsksIff(p, FirstWord(Trim(p)), Trim(p));
    }
  }

  // ---------------------------------------------------------------- splitting

  /** The parts that an operator ended, those operators, and what follows the last one. */
  datatype Cuts = Cuts(parts: seq<string>, operators: seq<string>, last: string)

  /** How many characters the operator at position `i` takes: `&&` and `||` win over `&` and `|`. */
  function OperatorWidth(s: string, i: nat): nat
    requires i < |s|
  {
    if i + 1 < |s| && (s[i] == '&' || s[i] == '|') && s[i + 1] == s[i] then 2 else 1
  }

  /** The operator at the front of `s`. */
  function Operator(s: string): (op: string)
    requires s != "" && IsOperator(s[0])
    ensures 0 < |op| <= |s| && op == s[..|op|]
  {
    s[..OperatorWidth(s, 0)]
  }

  /** Put `text` in front of the first piece. */
  function Led(text: string, c: Cuts): Cuts {
    if c.parts == [] then c.(last := text + c.last) else c.(parts := [text + c.parts[0]] + c.parts[1..])
  }

  function Cut(s: string, q: Quote): Cuts
    decreases |s|
  {
    if s == "" then Cuts([], [], "")
    else if q.Bare? && IsOperator(s[0]) then
      var op := Operator(s);
      var rest := Cut(s[|op|..], Bare);
      Cuts([""] + rest.parts, [op] + rest.operators, rest.last)
    else Led([s[0]], Cut(s[1..], Next(q, s[0])))
  }

  /** What the splitter returns: a trailing blank part is dropped. */
  function Parts(cmd: string): seq<string> {
    var c := Cut(cmd, Bare);
    if Blank(c.last) then c.parts else c.parts + [c.last]
  }

  lemma LedTwice(a: string, b: string, c: Cuts)
    ensures Led(a, Led(b, c)) == Led(a + b, c)
  {
    if c.parts == [] {
      assert a + (b + c.last) == (a + b) + c.last;
    } else {
      assert a + (b + c.parts[0]) == (a + b) + c.parts[0];
    }
  }

  lemma LedNothing(c: Cuts)
    ensures Led("", c) == c
  {
    assert "" + c.last == c.last;
    assert c.parts != [] ==> "" + c.parts[0] == c.parts[0] && [c.parts[0]] + c.parts[1..] == c.parts;
  }

  lemma {:induction false} StateAfter(q: Quote, s: string, c: char, cls: char -> bool)
    ensures NextAll(q, s + [c]) == Next(NextAll(q, s), c)
    ensures HasUnquoted(s + [c], q, cls) <==> HasUnquoted(s, q, cls) || (NextAll(q, s).Bare? && cls(c))
    decreases |s|
  {
    if s == "" {
      assert s + [c] == [c] && [c][1..] == "";
    } else {
      assert (s + [c])[0] == s[0] && (s + [c])[1..] == s[1..] + [c];
      StateAfter(Next(q, s[0]), s[1..], c, cls);
    }
  }

  lemma CutHere(pre: string, s: string, rest: Cuts)
    requires s != "" && IsOperator(s[0]) && NextAll(Bare, pre).Bare? && !HasUnquoted(pre, Bare, IsOperator)
    requires IsSplit(s[|Operator(s)|..], rest.parts, rest.operators, rest.last)
    ensures IsSplit(pre + s, [pre] + rest.parts, [Operator(s)] + rest.operators, rest.last)
  {
    var op, after := Operator(s), s[|Operator(s)|..];
    WholeAndClosed(pre);
    OperatorEnds(s);
    CutBefore(pre, op, after, rest.parts, rest.operators, rest.last);
    Regroup(pre, op, after);
  }

  lemma WholeAndClosed(pre: string)
    requires NextAll(Bare, pre).Bare? && !HasUnquoted(pre, Bare, IsOperator)
    ensures Closed(pre) && !Unquoted(pre, ";\n|&")
  {
    BareMeansClosed(pre);
    OperatorSeen(pre);
  }

  lemma OperatorEnds(s: string)
    requires s != "" && IsOperator(s[0])
    ensures Ends(Operator(s), s[|Operator(s)|..]) && s == Operator(s) + s[|Operator(s)|..]
  {
  }

  lemma LedStep(pre: string, s: string, q: Quote)
    requires s != "" && !(q.Bare? && IsOperator(s[0]))
    ensures Led(pre, Cut(s, q)) == Led(pre + [s[0]], Cut(s[1..], Next(q, s[0])))
  {
    LedTwice(pre, [s[0]], Cut(s[1..], Next(q, s[0])));
  }

  /** Text without unquoted operators, followed by the cuts of what comes after it. */
  lemma {:induction false} CutAfter(pre: string, s: string)
    requires !HasUnquoted(pre, Bare, IsOperator)
    ensures var c := Led(pre, Cut(s, NextAll(Bare, pre))); IsSplit(pre + s, c.parts, c.operators, c.last)
    decreases |s|
  {
    if s == "" {
      OperatorSeen(pre);
      assert pre + "" == pre;
    } else if NextAll(Bare, pre).Bare? && IsOperator(s[0]) {
      var after := s[|Operator(s)|..];
      CutAfter("", after);
      LedNothing(Cut(after, Bare));
      assert "" + after == after;
      CutHere(pre, s, Cut(after, Bare));
      LedByOperator(pre, s);
    } else {
      StateAfter(Bare, pre, s[0], IsOperator);
      CutAfter(pre + [s[0]], s[1..]);
      LedStep(pre, s, NextAll(Bare, pre));
      assert (pre + [s[0]]) + s[1..] == pre + s;
    }
  }

  lemma LedByOperator(pre: string, s: string)
    requires s != "" && IsOperator(s[0])
    ensures var rest := Cut(s[|Operator(s)|..], Bare);
      Led(pre, Cut(s, Bare)) == Cuts([pre] + rest.parts, [Operator(s)] + rest.operators, rest.last)
  {
    var rest := Cut(s[|Operator(s)|..], Bare);
    assert ([""] + rest.parts)[1..] == rest.parts && pre + "" == pre;
  }

  /** The automaton cuts the command where it has to be cut. */
  lemma CutIsSplit(cmd: string)
    ensures var c := Cut(cmd, Bare); IsSplit(cmd, c.parts, c.operators, c.last)
  {
    CutAfter("", cmd);
    LedNothing(Cut(cmd, Bare));
    assert "" + cmd == cmd;
  }

  /** The cuts still to come, seen from position `i` with `current` collected so far. */
  ghost predicate Ahead(cmd: string, i: nat, q: Quote, current: string, parts: seq<string>)
    requires i <= |cmd|
  {
    var c := Led(current, Cut(cmd[i..], q));
    Cut(cmd, Bare).parts == parts + c.parts && Cut(cmd, Bare).last == c.last
  }

  lemma KeepChar(cmd: string, i: nat, q: Quote, current: string, parts: seq<string>)
    requires i < |cmd| && Ahead(cmd, i, q, current, parts) && !(q.Bare? && IsOperator(cmd[i]))
    ensures Ahead(cmd, i + 1, Next(q, cmd[i]), current + [cmd[i]], parts)
  {
    assert cmd[i..][1..] == cmd[i + 1..];
    LedTwice(current, [cmd[i]], Cut(cmd[i + 1..], Next(q, cmd[i])));
  }

  lemma EndPart(cmd: string, i: nat, current: string, parts: seq<string>)
    requires i < |cmd| && Ahead(cmd, i, Bare, current, parts) && IsOperator(cmd[i])
    ensures |Operator(cmd[i..])| == OperatorWidth(cmd, i) <= |cmd| - i
    ensures Ahead(cmd, i + OperatorWidth(cmd, i), Bare, "", parts + [current])
  {
    var k := |Operator(cmd[i..])|;
    assert cmd[i..][k..] == cmd[i + k..];
    var rest := Cut(cmd[i + k..], Bare);
    LedNothing(rest);
    assert ([""] + rest.parts)[1..] == rest.parts && current + "" == current;
    assert parts + ([current] + rest.parts) == (parts + [current]) + rest.parts;
  }

  /** The flags after `c`. */
  predicate SingleAfter(inSingle: bool, inDouble: bool, c: char) { if c == '\'' && !inDouble then !inSingle else inSingle }

  predicate DoubleAfter(inSingle: bool, inDouble: bool, c: char) { if c == '"' && !inSingle then !inDouble else inDouble }

  /** The loop invariant: both flags are never set, and the cuts still to come are known. */
  ghost predicate Midway(cmd: string, i: nat, inSingle: bool, inDouble: bool, current: string, parts: seq<string>) {
    i <= |cmd| && !(inSingle && inDouble) && Ahead(cmd, i, FromFlags(inSingle, inDouble), current, parts)
  }

  /** One round: an unquoted operator ends the part, any other character joins it. */
  lemma OneRound(cmd: string, i: nat, inSingle: bool, inDouble: bool, current: string, parts: seq<string>)
    requires i < |cmd| && Midway(cmd, i, inSingle, inDouble, current, parts)
    ensures if !inSingle && !inDouble && IsOperator(cmd[i])
            then Midway(cmd, i + OperatorWidth(cmd, i), false, false, "", parts + [current])
            else Midway(cmd, i + 1, SingleAfter(inSingle, inDouble, cmd[i]), DoubleAfter(inSingle, inDouble, cmd[i]),
                        current + [cmd[i]], parts)
  {
    if !inSingle && !inDouble && IsOperator(cmd[i]) {
      EndPart(cmd, i, current, parts);
    } else {
      KeepChar(cmd, i, FromFlags(inSingle, inDouble), current, parts);
    }
  }

  lemma NothingCutYet(cmd: string)
    ensures Ahead(cmd, 0, Bare, "", [])
  {
    assert cmd[0..] == cmd;
    LedNothing(Cut(cmd, Bare));
  }

  lemma AllCut(cmd: string, q: Quote, current: string, parts: seq<string>)
    requires Ahead(cmd, |cmd|, q, current, parts)
    ensures Parts(cmd) == if Blank(current) then parts else parts + [current]
  {
    assert cmd[|cmd|..] == "" && current + "" == current;
  }

  /** What the splitter returns, without the automaton. */
  lemma PartsAreSplit(cmd: string)
    ensures Splits(cmd, Parts(cmd))
    ensures forall k | 0 <= k < |Parts(cmd)| :: !Unquoted(Parts(cmd)[k], ";\n|&")
  {
    var c := Cut(cmd, Bare);
    CutIsSplit(cmd);
    BlankIff(c.last);
    PiecesUncut(cmd, c.parts, c.operators, c.last);
  }

  lemma {:induction false} PiecesUncut(cmd: string, cuts: seq<string>, operators: seq<string>, last: string)
    requires IsSplit(cmd, cuts, operators, last)
    ensures !Unquoted(last, ";\n|&") && forall k | 0 <= k < |cuts| :: !Unquoted(cuts[k], ";\n|&")
    decreases |cuts|
  {
    if cuts != [] {
      PiecesUncut(cmd[|cuts[0]| + |operators[0]|..], cuts[1..], operators[1..], last);
      assert forall k | 1 <= k < |cuts| :: cuts[k] == cuts[1..][k - 1];
    }
  }

  /** `split_chained_commands`. */
  method SplitChainedCommands(cmd: string) returns (parts: seq<string>)
    ensures parts == Parts(cmd)
    ensures Splits(cmd, parts) && forall k | 0 <= k < |parts| :: !Unquoted(parts[k], ";\n|&")
  {
    parts := [];
    var current := "";
    var inSingleQuote, inDoubleQuote := false, false;
    var i := 0;
    NothingCutYet(cmd);
    while i < |cmd|
      invariant 0 <= i <= |cmd| && Midway(cmd, i, inSingleQuote, inDoubleQuote, current, parts)
    {
      var c := cmd[i];
      OneRound(cmd, i, inSingleQuote, inDoubleQuote, current, parts);
      if c == '\'' && !inDoubleQuote {
        inSingleQuote := !inSingleQuote;
        current := current + [c];
      } else if c == '"' && !inSingleQuote {
        inDoubleQuote := !inDoubleQuote;
        current := current + [c];
      } else if !inSingleQuote && !inDoubleQuote {
        if c == ';' || c == '\n' {
          parts, current := parts + [current], "";
        } else if i + 1 < |cmd| && ((c == '&' && cmd[i + 1] == '&') || (c == '|' && cmd[i + 1] == '|')) {
          parts, current := parts + [current], "";
          i := i + 1;
        } else if c == '|' || c == '&' {
          parts, current := parts + [current], "";
        } else {
          current := current + [c];
        }
      } else {
        current := current + [c];
      }
      i := i + 1;
    }
    AllCut(cmd, FromFlags(inSingleQuote, inDoubleQuote), current, parts);
    if !Blank(current) {
      parts := parts + [current];
    }
    PartsAreSplit(cmd);
  }

  // ---------------------------------------------------------------- nothing is lost

  function Interleaved(parts: seq<string>, operators: seq<string>): string
    requires |parts| == |operators|
  {
    if parts == [] then "" else parts[0] + operators[0] + Interleaved(parts[1..], operators[1..])
  }

  predicate IsOperatorText(op: string) {
    op == ";" || op == "\n" || op == "&" || op == "|" || op == "&&" || op == "||"
  }

  /** Parts and dropped operators, interleaved, rebuild the command. */
  lemma {:induction false} CutRebuilds(s: string, q: Quote)
    ensures var c := Cut(s, q);
      && |c.parts| == |c.operators|
      && Interleaved(c.parts, c.operators) + c.last == s
      && forall k | 0 <= k < |c.operators| :: IsOperatorText(c.operators[k])
    decreases |s|
  {
    if s != "" {
      if q.Bare? && IsOperator(s[0]) {
        var op := Operator(s);
        var rest := Cut(s[|op|..], Bare);
        CutRebuilds(s[|op|..], Bare);
        OperatorRebuilds(op, rest);
        assert s == op + s[|op|..];
      } else {
        CutRebuilds(s[1..], Next(q, s[0]));
        LedRebuilds([s[0]], Cut(s[1..], Next(q, s[0])));
        assert s == [s[0]] + s[1..];
      }
    }
  }

  lemma OperatorRebuilds(op: string, rest: Cuts)
    requires |rest.parts| == |rest.operators|
    ensures Interleaved([""] + rest.parts, [op] + rest.operators) + rest.last
         == op + (Interleaved(rest.parts, rest.operators) + rest.last)
  {
    assert ([""] + rest.parts)[1..] == rest.parts && ([op] + rest.operators)[1..] == rest.operators;
    var tail := Interleaved(rest.parts, rest.operators);
    assert "" + op + tail + rest.last == op + (tail + rest.last);
  }

  lemma LedRebuilds(text: string, c: Cuts)
    requires |c.parts| == |c.operators|
    ensures var d := Led(text, c);
      && d.operators == c.operators && |d.parts| == |c.parts|
      && Interleaved(d.parts, d.operators) + d.last == text + (Interleaved(c.parts, c.operators) + c.last)
  {
    var d := Led(text, c);
    if c.parts == [] {
      assert Interleaved(d.parts, d.operators) + d.last == d.last;
      assert Interleaved(c.parts, c.operators) + c.last == c.last;
    } else {
      assert d.parts[1..] == c.parts[1..];
      var tail := Interleaved(c.parts[1..], c.operators[1..]);
      assert (text + c.parts[0]) + c.operators[0] + tail + c.last
          == text + (c.parts[0] + c.operators[0] + tail + c.last);
    }
  }

  // ---------------------------------------------------------------- parts are whole

  /** A piece that starts and stays free of unquoted operators. */
  ghost predicate Whole(p: string, q: Quote) { !HasUnquoted(p, q, IsOperator) }

  /** Every piece is whole; the first one continues the quote state it is cut from. */
  ghost predicate AllWhole(c: Cuts, q: Quote) {
    if c.parts == [] then Whole(c.last, q)
    else
      && Whole(c.parts[0], q) && NextAll(q, c.parts[0]).Bare?
      && (forall k | 1 <= k < |c.parts| :: Whole(c.parts[k], Bare)) && Whole(c.last, Bare)
  }

  lemma {:induction false} PiecesAreWhole(s: string, q: Quote)
    ensures AllWhole(Cut(s, q), q)
    decreases |s|
  {
    if s != "" {
      if q.Bare? && IsOperator(s[0]) {
        PiecesAreWhole(s[|Operator(s)|..], Bare);
      } else {
        var rest := Cut(s[1..], Next(q, s[0]));
        PiecesAreWhole(s[1..], Next(q, s[0]));
        var first := if rest.parts == [] then rest.last else rest.parts[0];
        assert ([s[0]] + first)[1..] == first;
      }
    }
  }

  lemma {:induction false} WholeIsUncut(p: string, q: Quote)
    requires Whole(p, q)
    ensures Cut(p, q) == Cuts([], [], p)
    decreases |p|
  {
    if p != "" {
      WholeIsUncut(p[1..], Next(q, p[0]));
      assert p == [p[0]] + p[1..];
    }
  }

  /** Splitting a part again gives the part itself, or nothing when it is blank. */
  lemma PartsResplit(cmd: string, p: string)
    requires p in Parts(cmd)
    ensures Parts(p) == if Blank(p) then [] else [p]
  {
    PiecesAreWhole(cmd, Bare);
    var c := Cut(cmd, Bare);
    if p != c.last {
      var k :| 0 <= k < |c.parts| && c.parts[k] == p;
    }
    WholeIsUncut(p, Bare);
  }

  /** Parts and operators rebuild the command, up to a trailing part that is blank. */
  lemma PartsRebuild(cmd: string)
    ensures var c := Cut(cmd, Bare);
      && |c.parts| == |c.operators| && Interleaved(c.parts, c.operators) + c.last == cmd
      && Parts(cmd) == (if Blank(c.last) then c.parts else c.parts + [c.last])
      && forall k | 0 <= k < |c.operators| :: IsOperatorText(c.operators[k])
  {
    CutRebuilds(cmd, Bare);
  }

  lemma {:induction false} PartsShorter(parts: seq<string>, operators: seq<string>, k: nat)
    requires |parts| == |operators| && k < |parts|
    requires forall j | 0 <= j < |operators| :: operators[j] != ""
    ensures |parts[k]| < |Interleaved(parts, operators)|
  {
    if k > 0 {
      PartsShorter(parts[1..], operators[1..], k - 1);
    }
  }

  /** A command splits to exactly itself when, and only when, it is not blank and holds no
      unquoted operator. */
  lemma SplitsToItselfIff(cmd: string)
    ensures Parts(cmd) == [cmd] <==> !Blank(cmd) && !HasUnquoted(cmd, Bare, IsOperator)
  {
    var c := Cut(cmd, Bare);
    CutRebuilds(cmd, Bare);
    PiecesAreWhole(cmd, Bare);
    assert c.parts == [] ==> c.last == cmd;
    if !HasUnquoted(cmd, Bare, IsOperator) {
      WholeIsUncut(cmd, Bare);
    } else {
      PartsShorter(c.parts, c.operators, 0);
      assert Parts(cmd)[0] == c.parts[0];
    }
  }

  lemma {:induction false} MetaCoversOperators(s: string, q: Quote)
    requires HasUnquoted(s, q, IsOperator)
    ensures HasUnquoted(s, q, IsMeta)
    decreases |s|
  {
    if !(q.Bare? && IsOperator(s[0])) {
      MetaCoversOperators(s[1..], Next(q, s[0]));
    }
  }

  /** The gate and the splitter agree: a command the gate lets through is one part, itself. */
  lemma GateMeansOnePart(cmd: string)
    requires !HasUnquoted(cmd, Bare, IsMeta)
    ensures Parts(cmd) == if Blank(cmd) then [] else [cmd]
  {
    if HasUnquoted(cmd, Bare, IsOperator) {
      MetaCoversOperators(cmd, Bare);
    }
    WholeIsUncut(cmd, Bare);
  }

  /** The same, written out: no operator of either kind outside quotes. */
  lemma WholeCommandIff(cmd: string)
    ensures Parts(cmd) == [cmd] <==> !OnlyBlanks(cmd) && !Unquoted(cmd, ";\n|&")
    ensures !Unquoted(cmd, ";&|\n\r()<>") ==> Parts(cmd) == if OnlyBlanks(cmd) then [] else [cmd]
  {
    SplitsToItselfIff(cmd);
    BlankIff(cmd);
    OperatorSeen(cmd);
    MetaSeen(cmd);
    if !Unquoted(cmd, ";&|\n\r()<>") {
      GateMeansOnePart(cmd);
    }
  }

  // ---------------------------------------------------------------- the policy layer

  datatype Verdict = Allow | NeedsApproval(pattern: string) | Refuse(reason: string)

  /** `check_shell(binary, command)` of the policy engine. */
  type Policy = (string, string) -> Verdict

  /** The policy loop: every part that holds more than blanks is put to the policy, with its
      own first word; the first that is not allowed decides. */
  method CheckCommand(policy: Policy, cmd: string) returns (v: Verdict)
    ensures v.Allow? <==>
      forall p, binary, core | p in Parts(cmd) && Asks(p, binary, core) :: policy(binary, core).Allow?
    ensures !v.Allow? ==> exists k, binary, core ::
      (&& 0 <= k < |Parts(cmd)| && Asks(Parts(cmd)[k], binary, core) && v == policy(binary, core)
       && forall j, b, c | 0 <= j < k && Asks(Parts(cmd)[j], b, c) :: policy(b, c).Allow?)
  {
    var parts := SplitChainedCommands(cmd);
    for k := 0 to |parts|
      invariant forall j, b, c | 0 <= j < k && Asks(parts[j], b, c) :: policy(b, c).Allow?
    {
      var trimmed := Trim(parts[k]);
      forall b, c ensures Asks(parts[k], b, c) <==> trimmed != "" && c == trimmed && b == FirstWord(trimmed) {
        AsksIff(parts[k], b, c);
      }
      if trimmed == "" {
        continue;
      }
      v := policy(FirstWord(trimmed), trimmed);
      if !v.Allow? {
        assert parts[k] in parts && Asks(parts[k], FirstWord(trimmed), trimmed);
        return;
      }
    }
    v := Allow;
  }

  /** No part escapes the policy: whatever holds more than blanks is asked about, in one way. */
  lemma EveryPartIsAsked(p: string)
    ensures OnlyBlanks(p) <==> forall binary, core :: !Asks(p, binary, core)
    ensures forall b, c, b', c' | Asks(p, b, c) && Asks(p, b', c') :: b == b' && c == c'
  {
    BlankIff(p);
    forall b, c ensures Asks(p, b, c) <==> !Blank(p) && c == Trim(p) && b == FirstWord(Trim(p)) {
      AsksIff(p, b, c);
    }
  }

  /** Whatever the shell tool lets through was judged whole: if the gate finds nothing and
      the policy loop allowed the command, the policy allowed that very command. */
  lemma RunMeansJudgedWhole(policy: Policy, cmd: string)
    requires !Unquoted(cmd, ";&|\n\r()<>")
    requires forall p, binary, core | p in Parts(cmd) && Asks(p, binary, core) :: policy(binary, core).Allow?
    ensures forall binary, core | Asks(cmd, binary, core) :: policy(binary, core).Allow?
  {
    WholeCommandIff(cmd);
    EveryPartIsAsked(cmd);
    assert !OnlyBlanks(cmd) ==> cmd in Parts(cmd);
  }
}
