/** The quoting of pkg/image/wrapper.go against the shell's own reading of it: section 2.3
    (Token Recognition) and section 2.2.3 (Double-Quotes) of the Shell Command Language of
    IEEE Std 1003.1-2017.
 */
module ShellQuote {
  import opened Options

  // ----- The printer -----

  /** strings.ReplaceAll for a one-character pattern. */
  function ReplaceAll(s: string, c: char, sub: string): string {
    if |s| == 0 then "" else (if s[0] == c then sub else [s[0]]) + ReplaceAll(s[1..], c, sub)
  }

  function ShellEscapeValue(s: string): string {
    var e1 := ReplaceAll(s, '\\', "\\\\");
    var e2 := ReplaceAll(e1, '"', "\\\"");
    var e3 := ReplaceAll(e2, '$', "\\$");
    var e4 := ReplaceAll(e3, '`', "\\`");
    "\"" + e4 + "\""
  }

  predicate Special(c: char) {
    c == ' ' || c == '\t' || c == '"' || c == '\'' || c == '\\' || c == '$' || c == '`' || c == '!' ||
    c == '*' || c == '?' || c == '[' || c == ']' || c == '(' || c == ')' || c == '<' || c == '>' ||
    c == '&' || c == '|' || c == ';' || c == '\n'
  }

  predicate NeedsEscaping(s: string) {
    exists i | 0 <= i < |s| :: Special(s[i])
  }

  /** needsShellEscaping */
  method NeedsShellEscaping(s: string) returns (r: bool)
    ensures r == NeedsEscaping(s)
  {
    for i := 0 to |s|
      invariant forall k | 0 <= k < i :: !Special(s[k])
    {
      if Special(s[i]) {
        return true;
      }
    }
    return false;
  }

  /** Already between matching quotes. */
  predicate Wrapped(s: string) {
    |s| >= 2 && (s[0] == '"' || s[0] == '\'') && s[|s| - 1] == s[0]
  }

  function ShellEscape(s: string): string {
    if Wrapped(s) || !NeedsEscaping(s) then s else ShellEscapeValue(s)
  }

  function Join(parts: seq<string>): string {
    if |parts| == 0 then "" else if |parts| == 1 then parts[0] else parts[0] + " " + Join(parts[1..])
  }

  function Escaped(cmd: seq<string>): (r: seq<string>)
    ensures |r| == |cmd|
  {
    if |cmd| == 0 then [] else [ShellEscape(cmd[0])] + Escaped(cmd[1..])
  }

  function CommandString(cmd: seq<string>): string {
    if |cmd| == 0 then "/bin/sh" else Join(Escaped(cmd))
  }

  /** shellEscape */
  method EscapeArgument(s: string) returns (r: string)
    ensures r == ShellEscape(s)
  {
    if Wrapped(s) {
      return s;
    }
    var needed := NeedsShellEscaping(s);
    r := if s == "" || !needed then s else ShellEscapeValue(s);
  }

  lemma EscapedStep(cmd: seq<string>, i: nat, parts: seq<string>)
    requires i < |cmd|
    ensures parts + Escaped(cmd[i..]) == parts + [ShellEscape(cmd[i])] + Escaped(cmd[i + 1..])
  {
  }

  /** buildCommandString */
  method BuildCommandString(cmd: seq<string>) returns (r: string)
    ensures r == CommandString(cmd)
  {
    if |cmd| == 0 {
      return "/bin/sh";
    }
    var parts: seq<string> := [];
    for i := 0 to |cmd|
      invariant parts + Escaped(cmd[i..]) == Escaped(cmd)
    {
      var escaped := EscapeArgument(cmd[i]);
      EscapedStep(cmd, i, parts);
      parts := parts + [escaped];
    }
    assert parts + [] == parts;
    r := Join(parts);
  }

  /** parseEnvVar */
  function ParseEnvVar(env: string): (string, string) {
    var i := IndexOf(env, '=');
    if i < 0 then (env, "") else (env[..i], env[i + 1..])
  }

  /** strings.Index for one character */
  function IndexOf(s: string, c: char): (r: int)
    ensures r < 0 ==> c !in s
    ensures r >= 0 ==> r < |s| && s[r] == c && c !in s[..r]
  {
    if |s| == 0 then -1
    else if s[0] == c then 0
    else
      var r := IndexOf(s[1..], c);
      if r < 0 then -1 else
        assert s[..r + 1] == [s[0]] + s[1..][..r];
        r + 1
  }

  // ----- The shell -----

  /** Where the tokenizer is: between words, in a word, or inside quotes. */
  datatype Mode = Blank | Word(w: string) | Double(w: string) | Single(w: string)

  /** Characters that, unquoted, end a command or start an expansion. */
  predicate Active(c: char) {
    c == '&' || c == '|' || c == ';' || c == '<' || c == '>' || c == '(' || c == ')' || c == '\n' ||
    c == '$' || c == '`' || c == '*' || c == '?' || c == '[' || c == '\0'
  }

  function Prepend(w: string, r: Option<seq<string>>): Option<seq<string>> {
    if r.Some? then Some([w] + r.value) else None
  }

  /** The words of one simple command after quote removal; None when the text is not a list
      of literal words (an operator, an expansion, an unterminated quote). */
  function Lex(m: Mode, t: string): Option<seq<string>>
    decreases |t|, 0
  {
    if |t| == 0 then
      match m
      case Blank => Some([])
      case Word(w) => Some([w])
      case _ => None
    else
      var c, u := t[0], t[1..];
      match m
      case Blank =>
        if c == ' ' || c == '\t' then Lex(Blank, u)
        else if c == '#' then (if '\n' in u then None else Some([]))
        else if c == '~' then None
        else LexInWord("", c, u)
      case Word(w) =>
        if c == ' ' || c == '\t' then Prepend(w, Lex(Blank, u)) else LexInWord(w, c, u)
      case Double(w) =>
        if c == '"' then Lex(Word(w), u)
        else if c == '$' || c == '`' || c == '\0' then None
        else if c == '\\' then
          if |u| == 0 then None
          else if u[0] == '$' || u[0] == '`' || u[0] == '"' || u[0] == '\\' then Lex(Double(w + [u[0]]), u[1..])
          else if u[0] == '\n' then Lex(Double(w), u[1..])
          else Lex(Double(w + [c]), u)
        else Lex(Double(w + [c]), u)
      case Single(w) =>
        if c == '\'' then Lex(Word(w), u) else if c == '\0' then None else Lex(Single(w + [c]), u)
  }

  /** An unquoted character that is not a blank, in or at the start of a word. */
  function LexInWord(w: string, c: char, u: string): Option<seq<string>>
    decreases |u|, 1
  {
    if Active(c) then None
    else if c == '"' then Lex(Double(w), u)
    else if c == '\'' then Lex(Single(w), u)
    else if c == '\\' then
      if |u| == 0 || u[0] == '\0' then None
      else if u[0] == '\n' then Lex(if w == "" then Blank else Word(w), u[1..])
      else Lex(Word(w + [u[0]]), u[1..])
    else Lex(Word(w + [c]), u)
  }

  predicate NulFree(s: string) {
    '\0' !in s
  }

  // ----- One escape per character -----

  function EscapeOne(c: char): string {
    if c == '\\' || c == '"' || c == '$' || c == '`' then ['\\', c] else [c]
  }

  function EscapeEach(s: string): string {
    if |s| == 0 then "" else EscapeOne(s[0]) + EscapeEach(s[1..])
  }

  lemma {:induction false} ReplaceAllConcat(a: string, b: string, c: char, sub: string)
    ensures ReplaceAll(a + b, c, sub) == ReplaceAll(a, c, sub) + ReplaceAll(b, c, sub)
  {
    if |a| == 0 {
      assert a + b == b;
    } else {
      assert (a + b)[1..] == a[1..] + b;
      ReplaceAllConcat(a[1..], b, c, sub);
    }
  }

  function FourPasses(s: string): string {
    ReplaceAll(ReplaceAll(ReplaceAll(ReplaceAll(s, '\\', "\\\\"), '"', "\\\""), '$', "\\$"), '`', "\\`")
  }

  lemma FourPassesConcat(a: string, b: string)
    ensures FourPasses(a + b) == FourPasses(a) + FourPasses(b)
  {
    var a1, b1 := ReplaceAll(a, '\\', "\\\\"), ReplaceAll(b, '\\', "\\\\");
    var a2, b2 := ReplaceAll(a1, '"', "\\\""), ReplaceAll(b1, '"', "\\\"");
    var a3, b3 := ReplaceAll(a2, '$', "\\$"), ReplaceAll(b2, '$', "\\$");
    ReplaceAllConcat(a, b, '\\', "\\\\");
    ReplaceAllConcat(a1, b1, '"', "\\\"");
    ReplaceAllConcat(a2, b2, '$', "\\$");
    ReplaceAllConcat(a3, b3, '`', "\\`");
  }

  lemma ReplaceOne(c: char, p: char, sub: string)
    ensures ReplaceAll([c], p, sub) == if c == p then sub else [c]
  {
  }

  lemma ReplaceTwo(c: char, d: char, p: char, sub: string)
    ensures ReplaceAll([c, d], p, sub) == (if c == p then sub else [c]) + (if d == p then sub else [d])
  {
    assert [c, d][1..] == [d];
    ReplaceOne(d, p, sub);
  }

  lemma FourPassesOnOne(c: char)
    ensures FourPasses([c]) == EscapeOne(c)
  {
    ReplaceOne(c, '\\', "\\\\");
    ReplaceOne(c, '"', "\\\"");
    ReplaceOne(c, '$', "\\$");
    ReplaceOne(c, '`', "\\`");
    ReplaceTwo('\\', '\\', '"', "\\\"");
    ReplaceTwo('\\', '\\', '$', "\\$");
    ReplaceTwo('\\', '\\', '`', "\\`");
    ReplaceTwo('\\', '"', '$', "\\$");
    ReplaceTwo('\\', '"', '`', "\\`");
    ReplaceTwo('\\', '$', '`', "\\`");
  }

  lemma {:induction false} FourPassesAreOne(s: string)
    ensures FourPasses(s) == EscapeEach(s)
  {
    if |s| > 0 {
      assert s == [s[0]] + s[1..];
      FourPassesConcat([s[0]], s[1..]);
      FourPassesOnOne(s[0]);
      FourPassesAreOne(s[1..]);
    }
  }

  /** The four replacement passes do no more and no less than one simultaneous escape of
      backslash, double quote, dollar and backquote. */
  lemma EscapeValueIsEachCharacter(s: string)
    ensures ShellEscapeValue(s) == "\"" + EscapeEach(s) + "\""
  {
    FourPassesAreOne(s);
  }

  // ----- The shell reads back what was written -----

  lemma {:induction false} LexEscaped(w: string, s: string, rest: string)
    requires NulFree(s)
    ensures Lex(Double(w), EscapeEach(s) + ("\"" + rest)) == Lex(Word(w + s), rest)
    decreases |s|
  {
    var t := EscapeEach(s) + ("\"" + rest);
    if |s| == 0 {
      assert t == "\"" + rest && t[1..] == rest;
      assert w + s == w;
    } else {
      var c, tail := s[0], EscapeEach(s[1..]) + ("\"" + rest);
      LexEscaped(w + [c], s[1..], rest);
      assert w + [c] + s[1..] == w + s;
      assert t == EscapeOne(c) + tail;
      if |EscapeOne(c)| == 2 {
        assert t[0] == '\\' && t[1] == c && t[1..][1..] == tail;
        assert t[1..][0] == c;
      } else {
        assert t[0] == c && t[1..] == tail;
      }
    }
  }

  /** An escaped value read from the middle of a word appends exactly the value. */
  lemma LexValue(w: string, s: string, rest: string)
    requires NulFree(s)
    ensures Lex(Word(w), ShellEscapeValue(s) + rest) == Lex(Word(w + s), rest)
    ensures w == "" ==> Lex(Blank, ShellEscapeValue(s) + rest) == Lex(Word(s), rest)
  {
    EscapeValueIsEachCharacter(s);
    LexEscaped(w, s, rest);
    var t, u := ShellEscapeValue(s) + rest, EscapeEach(s) + ("\"" + rest);
    assert t[0] == '"' && t[1..] == u;
    assert LexInWord(w, '"', u) == Lex(Double(w), u);
    assert Lex(Word(w), t) == LexInWord(w, '"', u);
    if w == "" {
      assert w + s == s;
      assert Lex(Blank, t) == LexInWord("", '"', u);
    }
  }

  /** shellEscapeValue: for every NUL-free string the shell reads one word, the string itself. */
  lemma EscapeValueRoundTrip(s: string)
    requires NulFree(s)
    ensures Lex(Blank, ShellEscapeValue(s)) == Some([s])
  {
    LexValue("", s, "");
    assert ShellEscapeValue(s) + "" == ShellEscapeValue(s);
  }

  lemma {:induction false} LexPlain(w: string, s: string, rest: string)
    requires !NeedsEscaping(s) && NulFree(s)
    ensures Lex(Word(w), s + rest) == Lex(Word(w + s), rest)
    decreases |s|
  {
    if |s| == 0 {
      assert s + rest == rest && w + s == w;
    } else {
      assert !Special(s[0]) && s[0] != '\0';
      assert (s + rest)[0] == s[0] && (s + rest)[1..] == s[1..] + rest;
      assert forall i | 0 <= i < |s| - 1 :: s[1..][i] == s[i + 1];
      LexPlain(w + [s[0]], s[1..], rest);
      assert w + [s[0]] + s[1..] == w + s;
    }
  }

  /** The arguments that shellEscape prints faithfully. */
  predicate Faithful(s: string) {
    s != "" && !Wrapped(s) && (NeedsEscaping(s) || (s[0] != '#' && s[0] != '~'))
  }

  lemma LexArgument(s: string, rest: string)
    requires Faithful(s) && NulFree(s)
    ensures Lex(Blank, ShellEscape(s) + rest) == Lex(Word(s), rest)
  {
    if NeedsEscaping(s) {
      LexValue("", s, rest);
    } else {
      assert !Special(s[0]) && s[0] != '\0';
      assert (s + rest)[0] == s[0] && (s + rest)[1..] == s[1..] + rest;
      assert forall i | 0 <= i < |s| - 1 :: s[1..][i] == s[i + 1];
      LexPlain([s[0]], s[1..], rest);
      assert "" + [s[0]] == [s[0]] && [s[0]] + s[1..] == s;
    }
  }

  /** The shell reads the command line of buildCommandString as exactly the command. */
  lemma {:induction false} CommandRoundTrip(cmd: seq<string>)
    requires |cmd| > 0 && forall i | 0 <= i < |cmd| :: Faithful(cmd[i]) && NulFree(cmd[i])
    ensures Lex(Blank, CommandString(cmd)) == Some(cmd)
    decreases |cmd|
  {
    if |cmd| == 1 {
      LexArgument(cmd[0], "");
      assert ShellEscape(cmd[0]) + "" == CommandString(cmd);
      assert cmd == [cmd[0]];
    } else {
      var tail := CommandString(cmd[1..]);
      CommandRoundTrip(cmd[1..]);
      LexArgument(cmd[0], " " + tail);
      CommandStringSplits(cmd);
      NextWord(cmd[0], tail);
      assert [cmd[0]] + cmd[1..] == cmd;
    }
  }

  lemma CommandStringSplits(cmd: seq<string>)
    requires |cmd| > 1
    ensures CommandString(cmd) == ShellEscape(cmd[0]) + (" " + CommandString(cmd[1..]))
  {
  }

  lemma NextWord(w: string, tail: string)
    ensures Lex(Word(w), " " + tail) == Prepend(w, Lex(Blank, tail))
  {
  }

  function TotalLength(words: seq<string>): nat {
    if |words| == 0 then 0 else |words[0]| + TotalLength(words[1..])
  }

  function Pending(m: Mode): nat {
    if m.Blank? then 0 else |m.w|
  }

  /** Reading never lengthens. */
  lemma {:induction false} LexShrinks(m: Mode, t: string)
    ensures var r := Lex(m, t); r.Some? ==> TotalLength(r.value) <= Pending(m) + |t|
    decreases |t|, 0
  {
    if |t| > 0 {
      var c, u := t[0], t[1..];
      LexShrinks(Blank, u);
      if m.Blank? {
        LexInWordShrinks("", c, u);
      } else {
        LexInWordShrinks(m.w, c, u);
        LexShrinks(Double(m.w + [c]), u);
        LexShrinks(Single(m.w + [c]), u);
        LexShrinks(Word(m.w), u);
        if |u| > 0 {
          LexShrinks(Double(m.w + [u[0]]), u[1..]);
          LexShrinks(Double(m.w), u[1..]);
        }
        if m.Word? && Lex(Blank, u).Some? {
          assert ([m.w] + Lex(Blank, u).value)[1..] == Lex(Blank, u).value;
        }
      }
    }
  }

  lemma LexInWordShrinks(w: string, c: char, u: string)
    ensures var r := LexInWord(w, c, u); r.Some? ==> TotalLength(r.value) <= |w| + 1 + |u|
    ensures (c == '"' || c == '\'') ==>
              var r := LexInWord(w, c, u); r.Some? ==> TotalLength(r.value) <= |w| + |u|
    decreases |u|, 1
  {
    LexShrinks(Double(w), u);
    LexShrinks(Single(w), u);
    LexShrinks(Word(w + [c]), u);
    if |u| > 0 {
      LexShrinks(Blank, u[1..]);
      LexShrinks(Word(w), u[1..]);
      LexShrinks(Word(w + [u[0]]), u[1..]);
    }
  }

  /** shellEscape: the shell reads back the one word s exactly when s is not empty, not
      already between matching quotes, and not a bare word that starts a comment or a tilde
      expansion. */
  lemma EscapeRoundTripIff(s: string)
    requires NulFree(s)
    ensures Lex(Blank, ShellEscape(s)) == Some([s]) <==> Faithful(s)
  {
    if Faithful(s) {
      LexArgument(s, "");
      assert ShellEscape(s) + "" == ShellEscape(s);
    } else if Wrapped(s) {
      LexInWordShrinks("", s[0], s[1..]);
      assert TotalLength([s]) == |s| by {
        assert [s][1..] == [];
      }
    }
  }

  /** shellEscape leaves an argument as it is exactly when it is empty, already between matching
      quotes, or free of the characters that its switch lists; otherwise it adds quotes. */
  lemma EscapeUnchangedIff(s: string)
    ensures ShellEscape(s) == s <==>
            || (|s| >= 2 && (s[0] == '"' || s[0] == '\'') && s[|s| - 1] == s[0])
            || forall c | c in s :: c !in " \t\"'\\$`!*?[]()<>&|;\n"
    ensures ShellEscape(s) != s ==> ShellEscape(s) == "\"" + EscapeEach(s) + "\""
  {
    SpecialIs();
    EscapeValueIsEachCharacter(s);
    EscapeEachGrows(s);
  }

  lemma SpecialIs()
    ensures forall c: char :: Special(c) <==> c in " \t\"'\\$`!*?[]()<>&|;\n"
  {
  }

  lemma {:induction false} EscapeEachGrows(s: string)
    ensures |EscapeEach(s)| >= |s|
  {
    if |s| > 0 {
      EscapeEachGrows(s[1..]);
    }
  }

  /** The command of an image without one is the shell. */
  lemma EmptyCommandIsShell()
    ensures Lex(Blank, CommandString([])) == Some(["/bin/sh"])
  {
    assert !NeedsEscaping("/bin/sh") && NulFree("/bin/sh");
    LexArgument("/bin/sh", "");
    assert "/bin/sh" + "" == "/bin/sh";
  }

  // ----- Environment lines -----

  /** An environment entry is cut at its first equals sign; without one it is a name without a
      value. */
  lemma ParseEnvVarIs(env: string)
    ensures var (key, value) := ParseEnvVar(env);
            && '=' !in key
            && (if '=' in env then env == key + "=" + value else key == env && value == "")
  {
  }

  /** The export line of an environment entry. */
  function ExportLine(env: string): string {
    var (key, value) := ParseEnvVar(env);
    "export " + ShellEscape(key) + "=" + ShellEscapeValue(value)
  }

  /** The shell reads an export line as the word export and the entry itself; an entry without
      an equals sign comes back as an assignment of the empty value. */
  lemma ExportRoundTrip(env: string)
    requires NulFree(env) && Faithful(ParseEnvVar(env).0)
    ensures Lex(Blank, ExportLine(env)) == Some(["export", if '=' in env then env else env + "="])
  {
    var (key, value) := ParseEnvVar(env);
    assert key + "=" + value == if '=' in env then env else env + "=";
    assert NulFree(key) && NulFree(value);
    var entry := ShellEscape(key) + ("=" + ShellEscapeValue(value));
    LexEntry(key, value);
    ExportWord(" " + entry);
    NextWord("export", entry);
    Regroup(ShellEscape(key), ShellEscapeValue(value));
    assert ["export"] + [key + "=" + value] == ["export", key + "=" + value];
  }

  lemma ExportWord(rest: string)
    ensures Lex(Blank, "export" + rest) == Lex(Word("export"), rest)
  {
    assert !NeedsEscaping("export") && NulFree("export");
    LexArgument("export", rest);
  }

  lemma Regroup(a: string, b: string)
    ensures "export " + a + "=" + b == "export" + (" " + (a + ("=" + b)))
  {
  }

  lemma LexEntry(key: string, value: string)
    requires Faithful(key) && NulFree(key) && NulFree(value)
    ensures Lex(Blank, ShellEscape(key) + ("=" + ShellEscapeValue(value))) == Some([key + "=" + value])
  {
    var quoted := ShellEscapeValue(value);
    LexArgument(key, "=" + quoted);
    assert ("=" + quoted)[1..] == quoted + "";
    assert Lex(Word(key), "=" + quoted) == LexInWord(key, '=', quoted);
    assert key + ['='] == key + "=";
    LexValue(key + "=", value, "");
  }
}
