/** What quoting, blanks and the first word of a command mean, written out without any scanner
    state and with the characters as literals. */
module ShellText {
  import opened Basics

  /** Every quote in `t` is closed: bare characters and quoted stretches, one after another. */
  ghost predicate Closed(t: string)
    decreases |t|
  {
    if t == "" then true
    else if t[0] == '\'' || t[0] == '"' then
      exists k :: 0 <= k < |t[1..]| && EndsQuote(t[0], t[1..], k) && Closed(t[1..][k + 1..])
    else Closed(t[1..])
  }

  /** Position `k` of `t` holds the first `quote`. */
  predicate EndsQuote(quote: char, t: string, k: nat)
    requires k < |t|
  {
    t[k] == quote && quote !in t[..k]
  }

  /** One of `chars` stands outside quotes. */
  ghost predicate Unquoted(s: string, chars: string) {
    exists i :: 0 <= i < |s| && Closed(s[..i]) && s[i] in chars
  }

  /** `op` may end a part when `rest` follows: two equal `&` or `|` are one operator. */
  predicate Ends(op: string, rest: string) {
    || op == ";" || op == "\n" || op == "&&" || op == "||"
    || ((op == "&" || op == "|") && (rest != "" ==> rest[0] != op[0]))
  }

  /** `cmd` is cut at every operator outside quotes, and nowhere else: `cuts` are the parts that
      an operator of `operators` ends, `last` is what follows. */
  ghost predicate IsSplit(cmd: string, cuts: seq<string>, operators: seq<string>, last: string)
    decreases |cuts|
  {
    if cuts == [] || operators == [] then
      cuts == operators == [] && last == cmd && !Unquoted(cmd, ";\n|&")
    else
      var n := |cuts[0]| + |operators[0]|;
      && n <= |cmd| && cmd[..n] == cuts[0] + operators[0]
      && Closed(cuts[0]) && !Unquoted(cuts[0], ";\n|&") && Ends(operators[0], cmd[n..])
      && IsSplit(cmd[n..], cuts[1..], operators[1..], last)
  }

  /** `parts` are the cuts of `cmd` and what follows the last of them, unless that is blank. */
  ghost predicate Splits(cmd: string, parts: seq<string>) {
    exists cuts, operators, last :: (IsSplit(cmd, cuts, operators, last)
      && parts == if OnlyBlanks(last) then cuts else cuts + [last])
  }

  lemma CutBefore(pre: string, op: string, after: string, cuts: seq<string>, operators: seq<string>, last: string)
    requires Closed(pre) && !Unquoted(pre, ";\n|&") && Ends(op, after) && IsSplit(after, cuts, operators, last)
    ensures IsSplit(pre + op + after, [pre] + cuts, [op] + operators, last)
  {
    var n, cmd := |pre| + |op|, pre + op + after;
    assert cmd[..n] == pre + op && cmd[n..] == after;
    assert ([pre] + cuts)[1..] == cuts && ([op] + operators)[1..] == operators;
  }

  /** A part cannot reach over an operator of the other split. */
  lemma FirstCutsAgree(cmd: string, a: string, op: string, b: string)
    requires |a| < |b| <= |cmd| && cmd[..|b|] == b && Closed(a) && op != "" && op[0] in ";\n|&"
    requires |a + op| <= |cmd| && cmd[..|a + op|] == a + op
    ensures Unquoted(b, ";\n|&")
  {
    assert b[..|a|] == cmd[..|a|] == (a + op)[..|a|] == a;
    assert b[|a|] == cmd[|a|] == (a + op)[|a|] == op[0];
  }

  lemma CutMeansOperator(cmd: string, cuts: seq<string>, operators: seq<string>, last: string)
    requires IsSplit(cmd, cuts, operators, last)
    ensures cuts != [] <==> Unquoted(cmd, ";\n|&")
  {
    if cuts != [] {
      FirstCutsAgree(cmd, cuts[0], operators[0], cmd);
    }
  }

  /** A command can be cut in one way only. */
  lemma {:induction false} SplitIsUnique(cmd: string, a: seq<string>, o: seq<string>, l: string, b: seq<string>, p: seq<string>, m: string)
    requires IsSplit(cmd, a, o, l) && IsSplit(cmd, b, p, m)
    ensures a == b && o == p && l == m
    decreases |a|
  {
    CutMeansOperator(cmd, a, o, l);
    CutMeansOperator(cmd, b, p, m);
    if a != [] {
      SameFirstCut(cmd, a[0], o[0], b[0], p[0]);
      SplitIsUnique(cmd[|a[0]| + |o[0]|..], a[1..], o[1..], l, b[1..], p[1..], m);
      SameHeadAndTail(a, b);
      SameHeadAndTail(o, p);
    }
  }

  lemma SameFirstCut(cmd: string, a: string, o: string, b: string, p: string)
    requires |a + o| <= |cmd| && cmd[..|a + o|] == a + o && |b + p| <= |cmd| && cmd[..|b + p|] == b + p
    requires Closed(a) && !Unquoted(a, ";\n|&") && Ends(o, cmd[|a + o|..])
    requires Closed(b) && !Unquoted(b, ";\n|&") && Ends(p, cmd[|b + p|..])
    ensures a == b && o == p
  {
    assert a == cmd[..|a + o|][..|a|] == cmd[..|a|] && b == cmd[..|b + p|][..|b|] == cmd[..|b|];
    if |a| < |b| {
      FirstCutsAgree(cmd, a, o, b);
    }
    if |b| < |a| {
      FirstCutsAgree(cmd, b, p, a);
    }
    assert cmd[|a|] == (a + o)[|a|] == o[0] && cmd[|b|] == (b + p)[|b|] == p[0];
    assert |o| == 2 ==> cmd[|a| + 1] == (a + o)[|a| + 1] == o[1];
    assert |p| == 2 ==> cmd[|b| + 1] == (b + p)[|b| + 1] == p[1];
  }

  /** The blanks of the Unicode White_Space property. */
  predicate ListedBlank(c: char) {
    c as int in {0x09, 0x0A, 0x0B, 0x0C, 0x0D, 0x20, 0x85, 0xA0, 0x1680,
                 0x2000, 0x2001, 0x2002, 0x2003, 0x2004, 0x2005, 0x2006, 0x2007, 0x2008, 0x2009, 0x200A,
                 0x2028, 0x2029, 0x202F, 0x205F, 0x3000}
  }

  predicate OnlyBlanks(t: string) { forall k | 0 <= k < |t| :: ListedBlank(t[k]) }

  /** `core` is `p` without the blanks around it, and is not empty. */
  predicate Framed(p: string, lead: string, core: string, trail: string) {
    && p == lead + core + trail && OnlyBlanks(lead) && OnlyBlanks(trail)
    && core != "" && !ListedBlank(core[0]) && !ListedBlank(core[|core| - 1])
  }

  /** `binary` is the longest beginning of `core` that holds no blank. */
  predicate IsFirstWord(core: string, binary: string) {
    && binary <= core && (forall k | 0 <= k < |binary| :: !ListedBlank(binary[k]))
    && (|binary| < |core| ==> ListedBlank(core[|binary|]))
  }

  /** What the policy is asked about a part: its text without the blanks around it, and the
      first word of that. */
  ghost predicate Asks(p: string, binary: string, core: string) {
    (exists lead, trail :: Framed(p, lead, core, trail)) && IsFirstWord(core, binary)
  }
}
