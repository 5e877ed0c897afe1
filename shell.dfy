/** The shell-text helpers of clicache/cli.py: single-quote escaping, turning
    an argument vector into one command line, classifying a finished command
    as an error, and reassembling a command's output into lines. */
module Shell {
  import opened Common
  import opened Text
  import Decimal

  /** What `sh` may be: shell code as one string, or an argument vector. */
  datatype Command = ShellCode(text: string) | ArgList(args: seq<string>)

  // ---------------------------------------------------------------------------
  // shquote

  /** Replaces every single quote with the four characters '\'' : close the
      quoted run, an escaped quote, reopen the quoted run. */
  function EscapeQuotes(text: string): (r: string)
    ensures |r| == |text| + 3 * Count(text, '\'')
  {
    if text == [] then []
    else (if text[0] == '\'' then "'\\''" else [text[0]]) + EscapeQuotes(text[1..])
  }

  /** `shquote(text)`: the text as a single word of POSIX shell code. */
  function ShQuote(text: string): (r: string)
    ensures |r| == |text| + 2 + 3 * Count(text, '\'')
    ensures r[0] == '\'' && r[|r| - 1] == '\''
  {
    "'" + EscapeQuotes(text) + "'"
  }

  /** Text without single quotes is only wrapped in a pair of them. */
  lemma ShQuoteNoQuote(text: string)
    requires forall i :: 0 <= i < |text| ==> text[i] != '\''
    ensures ShQuote(text) == "'" + text + "'"
  {
    EscapeNoQuote(text);
  }

  lemma {:induction false} EscapeNoQuote(text: string)
    requires forall i :: 0 <= i < |text| ==> text[i] != '\''
    ensures EscapeQuotes(text) == text
  {
    if text != [] {
      EscapeNoQuote(text[1..]);
      assert [text[0]] + text[1..] == text;
    }
  }

  /** `replace` works piecewise: escaping a concatenation escapes each part. */
  lemma {:induction false} EscapeQuotesAppend(a: string, b: string)
    ensures EscapeQuotes(a + b) == EscapeQuotes(a) + EscapeQuotes(b)
  {
    if a == [] {
      assert a + b == b;
    } else {
      assert (a + b)[1..] == a[1..] + b;
      EscapeQuotesAppend(a[1..], b);
      var head := if a[0] == '\'' then "'\\''" else [a[0]];
      AppendAssoc(head, EscapeQuotes(a[1..]), EscapeQuotes(b));
    }
  }

  /** Quoting a text with one inner quote closes the quoted run, puts the
      quote outside it escaped, and reopens the run: `don't` becomes
      `'don'\''t'`. */
  lemma ShQuoteOneQuote(before: string, after: string)
    requires forall i :: 0 <= i < |before| ==> before[i] != '\''
    requires forall i :: 0 <= i < |after| ==> after[i] != '\''
    ensures ShQuote(before + "'" + after) == "'" + before + "'\\''" + after + "'"
  {
    var e := EscapeQuotes("'");
    assert e == "'\\''";
    calc {
      ShQuote(before + "'" + after);
      "'" + EscapeQuotes(before + "'" + after) + "'";
      { EscapeQuotesAppend(before + "'", after); EscapeQuotesAppend(before, "'");
        EscapeNoQuote(before); EscapeNoQuote(after); }
      "'" + (before + e + after) + "'";
      { AppendAssoc("'", before + e, after); AppendAssoc("'", before, e); }
      "'" + before + e + after + "'";
    }
  }

  // ---------------------------------------------------------------------------
  // Reading shell words back (quote removal of section 2.2 and field
  // splitting on blanks of the POSIX Shell Command Language), for the
  // characters the command lines built here leave unquoted.

  predicate IsBlank(c: char) { c == ' ' || c == '\t' }

  /** True when `s` is empty or starts where a word must end. */
  predicate AtWordEnd(s: string) { s == [] || IsBlank(s[0]) || s[0] == '\n' }

  function Prepend(c: char, r: Option<(string, string)>): Option<(string, string)>
  {
    match r
    case None => None
    case Some((w, rest)) => Some(([c] + w, rest))
  }

  /** Reads the rest of one word of `s`; `quoted` is true inside a single-quoted
      run.  A backslash outside quotes keeps the next character literally (and
      removes a following newline); inside single quotes every character but the
      closing quote is literal.  Returns the word's value and the unread input,
      or None for an unterminated quote or a trailing lone backslash. */
  function ReadWord(s: string, quoted: bool): (r: Option<(string, string)>)
    ensures r.Some? ==> |r.value.1| <= |s| && AtWordEnd(r.value.1)
    ensures r.Some? && s != [] && (quoted || !AtWordEnd(s)) ==> |r.value.1| < |s|
    decreases |s|
  {
    if s == [] then (if quoted then None else Some(([], [])))
    else if quoted then
      if s[0] == '\'' then ReadWord(s[1..], false) else Prepend(s[0], ReadWord(s[1..], true))
    else if AtWordEnd(s) then Some(([], s))
    else if s[0] == '\'' then ReadWord(s[1..], true)
    else if s[0] == '\\' then
      if |s| == 1 then None
      else if s[1] == '\n' then ReadWord(s[2..], false)
      else Prepend(s[1], ReadWord(s[2..], false))
    else Prepend(s[0], ReadWord(s[1..], false))
  }

  /** The value of `s` read as exactly one shell word. */
  function Unquote(s: string): Option<string>
  {
    match ReadWord(s, false)
    case Some((w, rest)) => if rest == [] then Some(w) else None
    case None => None
  }

  /** The words of the first simple command in `s`: blanks separate words and
      an unquoted newline ends the command. */
  function Words(s: string): Option<seq<string>>
    decreases |s|
  {
    if s == [] || s[0] == '\n' then Some([])
    else if IsBlank(s[0]) then Words(s[1..])
    else
      match ReadWord(s, false)
      case None => None
      case Some((w, rest)) =>
        match Words(rest)
        case None => None
        case Some(ws) => Some([w] + ws)
  }

  lemma {:induction false} ReadEscaped(text: string, tail: string)
    requires AtWordEnd(tail)
    ensures ReadWord(EscapeQuotes(text) + "'" + tail, true) == Some((text, tail))
  {
    if text == [] {
      assert EscapeQuotes(text) + "'" + tail == "'" + tail;
      ReadClosing(tail);
    } else {
      var rest := EscapeQuotes(text[1..]) + "'" + tail;
      ReadEscaped(text[1..], tail);
      EscapeSplit(text, tail);
      if text[0] == '\'' {
        ReadEscapedQuote(rest);
      } else {
        ReadLiteral(text[0], rest);
      }
      assert [text[0]] + text[1..] == text;
    }
  }

  lemma ReadClosing(tail: string)
    requires AtWordEnd(tail)
    ensures ReadWord("'" + tail, true) == Some(([], tail))
  {
    assert ("'" + tail)[1..] == tail;
  }

  lemma EscapeSplit(text: string, tail: string)
    requires text != []
    ensures EscapeQuotes(text) + "'" + tail ==
      (if text[0] == '\'' then "'\\''" else [text[0]]) + (EscapeQuotes(text[1..]) + "'" + tail)
  {
    var piece := if text[0] == '\'' then "'\\''" else [text[0]];
    var e := EscapeQuotes(text[1..]);
    assert EscapeQuotes(text) == piece + e;
    AppendAssoc(piece, e, "'");
    AppendAssoc(piece, e + "'", tail);
  }

  /** The escaped quote '\'' inside a quoted run reads as one quote. */
  lemma ReadEscapedQuote(rest: string)
    ensures ReadWord("'\\''" + rest, true) == Prepend('\'', ReadWord(rest, true))
  {
    var s := "'\\''" + rest;
    var u := s[1..][2..];
    assert u[0] == '\'' && u[1..] == rest;
    assert ReadWord(u, false) == ReadWord(rest, true);
    assert s[1..][0] == '\\' && s[1..][1] == '\'';
    assert ReadWord(s[1..], false) == Prepend('\'', ReadWord(u, false));
  }

  lemma ReadLiteral(c: char, rest: string)
    requires c != '\''
    ensures ReadWord([c] + rest, true) == Prepend(c, ReadWord(rest, true))
  {
    assert ([c] + rest)[1..] == rest;
  }

  /** A quoted text is read back as one word holding exactly that text. */
  lemma ReadQuoted(text: string, tail: string)
    requires AtWordEnd(tail)
    ensures ReadWord(ShQuote(text) + tail, false) == Some((text, tail))
  {
    var s := ShQuote(text) + tail;
    assert s[1..] == EscapeQuotes(text) + "'" + tail;
    ReadEscaped(text, tail);
  }

  /** POSIX quote removal undoes `shquote`, for every text. */
  lemma ShQuoteRoundTrip(text: string)
    ensures Unquote(ShQuote(text)) == Some(text)
  {
    ReadQuoted(text, []);
    assert ShQuote(text) + [] == ShQuote(text);
  }

  // ---------------------------------------------------------------------------
  // argv2sh

  /** The character class of `re_unquote` at cli.py:10. */
  predicate IsSafeChar(c: char)
  {
    ('a' <= c <= 'z') || ('A' <= c <= 'Z') || ('0' <= c <= '9')
    || c == '_' || c == '-' || c == '.' || c == ',' || c == '/'
  }

  /** The argument consists wholly of one or more safe characters. */
  predicate IsSafeWord(arg: string)
  {
    arg != [] && forall i :: 0 <= i < |arg| ==> IsSafeChar(arg[i])
  }

  /** An argument `re_unquote` accepts only because Python's `$` also
      matches just before a newline that ends the string: a safe word
      followed by one newline. */
  predicate NewlineBare(arg: string)
  {
    |arg| >= 2 && arg[|arg| - 1] == '\n' && IsSafeWord(arg[..|arg| - 1])
  }

  /** What `re_unquote.match(arg)` accepts as written. */
  predicate MatchesAsWritten(arg: string)
  {
    IsSafeWord(arg) || NewlineBare(arg)
  }

  /** One argument as cli.py:41-44 renders it: bare whenever `re_unquote`
      matches, which includes a safe word followed by one newline.  It agrees
      with `Render` everywhere else. */
  function RenderAsWritten(arg: string): (r: string)
    ensures !NewlineBare(arg) ==> r == Render(arg)
    ensures MatchesAsWritten(arg) ==> r == arg
  {
    if MatchesAsWritten(arg) then arg else ShQuote(arg)
  }

  /** One argument as it appears in the command line once the pattern is
      anchored at the very end: bare when it consists of safe characters,
      single-quoted otherwise. */
  function Render(arg: string): (r: string)
    ensures r != [] && !AtWordEnd(r)
  {
    if IsSafeWord(arg) then arg else ShQuote(arg)
  }

  /** The command line with the corrected rendering: the rendered arguments,
      separated by single spaces. */
  function CommandLine(argv: seq<string>): string
  {
    if argv == [] then ""
    else if |argv| == 1 then Render(argv[0])
    else Render(argv[0]) + " " + CommandLine(argv[1..])
  }

  lemma {:induction false} CommandLineSnoc(argv: seq<string>, arg: string)
    ensures CommandLine(argv + [arg]) ==
      if argv == [] then Render(arg) else CommandLine(argv) + " " + Render(arg)
  {
    if |argv| == 1 {
      assert (argv + [arg])[1..] == [arg];
    } else if |argv| > 1 {
      assert (argv + [arg])[1..] == argv[1..] + [arg];
      CommandLineSnoc(argv[1..], arg);
    } else {
      assert argv + [arg] == [arg];
    }
  }

  /** The command line `argv2sh` returns as written: the arguments rendered
      by `re_unquote` as it stands, separated by single spaces. */
  function CommandLineAsWritten(argv: seq<string>): string
  {
    if argv == [] then ""
    else if |argv| == 1 then RenderAsWritten(argv[0])
    else CommandLineAsWritten(argv[..|argv| - 1]) + " " + RenderAsWritten(argv[|argv| - 1])
  }

  /** Unless some argument is a safe word followed by one newline, the
      command line as written is the corrected one. */
  lemma {:induction false} AsWrittenAgrees(argv: seq<string>)
    requires forall i :: 0 <= i < |argv| ==> !NewlineBare(argv[i])
    ensures CommandLineAsWritten(argv) == CommandLine(argv)
  {
    if argv == [] {
    } else if |argv| == 1 {
      assert !NewlineBare(argv[0]);
      assert RenderAsWritten(argv[0]) == Render(argv[0]);
    } else {
      var init := argv[..|argv| - 1];
      assert forall i :: 0 <= i < |init| ==> !NewlineBare(init[i]) by {
        assert forall i :: 0 <= i < |init| ==> init[i] == argv[i];
      }
      AsWrittenAgrees(init);
      assert !NewlineBare(argv[|argv| - 1]);
      AgreesStep(argv);
    }
  }

  /** One more argument keeps the two command lines equal. */
  lemma AgreesStep(argv: seq<string>)
    requires |argv| > 1
    requires CommandLineAsWritten(argv[..|argv| - 1]) == CommandLine(argv[..|argv| - 1])
    requires !NewlineBare(argv[|argv| - 1])
    ensures CommandLineAsWritten(argv) == CommandLine(argv)
  {
    CommandLineLast(argv);
  }

  /** The corrected command line, split before its last argument. */
  lemma CommandLineLast(argv: seq<string>)
    requires |argv| > 1
    ensures CommandLine(argv) == CommandLine(argv[..|argv| - 1]) + " " + Render(argv[|argv| - 1])
  {
    SnocSplit(argv);
    CommandLineSnoc(argv[..|argv| - 1], argv[|argv| - 1]);
  }

  /** What the loop of `argv2sh` has built after the arguments `argv`: a
      space and the rendered argument for each. */
  function Spaced(argv: seq<string>): string
  {
    if argv == [] then "" else Spaced(argv[..|argv| - 1]) + " " + RenderAsWritten(argv[|argv| - 1])
  }

  /** Slicing off the leading space leaves the command line. */
  lemma {:induction false} SpacedCommandLine(argv: seq<string>)
    ensures Spaced(argv) == if argv == [] then "" else " " + CommandLineAsWritten(argv)
  {
    if argv != [] {
      var init, last := argv[..|argv| - 1], argv[|argv| - 1];
      SpacedCommandLine(init);
      if init == [] {
        assert Spaced(argv) == " " + RenderAsWritten(last);
      } else {
        AppendAssoc(" ", CommandLineAsWritten(init), " ");
        AppendAssoc(" ", CommandLineAsWritten(init) + " ", RenderAsWritten(last));
      }
    }
  }

  /** `argv2sh(argv)`: a loop appends a space and each argument, bare when
      `re_unquote` matches and quoted otherwise, then the leading space is
      sliced off (the slice cannot fail, so an empty list gives the empty
      string rather than an error).  When no argument is a safe word followed
      by a newline, a shell reads the result back as exactly `argv`. */
  method Argv2Sh(argv: seq<string>) returns (sh: string)
    ensures sh == CommandLineAsWritten(argv)
    ensures (forall i :: 0 <= i < |argv| ==> !NewlineBare(argv[i])) ==> Words(sh) == Some(argv)
  {
    var acc := "";
    for k := 0 to |argv|
      invariant acc == Spaced(argv[..k])
    {
      assert argv[..k + 1][..k] == argv[..k];
      acc := acc + " ";
      if MatchesAsWritten(argv[k]) {
        acc := acc + argv[k];
      } else {
        acc := acc + ShQuote(argv[k]);
      }
    }
    assert argv[..|argv|] == argv;
    SpacedCommandLine(argv);
    sh := if acc == "" then acc else acc[1..];
    if forall i :: 0 <= i < |argv| ==> !NewlineBare(argv[i]) {
      AsWrittenAgrees(argv);
      CommandLineWords(argv);
    }
  }

  lemma {:induction false} ReadSafe(arg: string, tail: string)
    requires forall i :: 0 <= i < |arg| ==> IsSafeChar(arg[i])
    requires AtWordEnd(tail)
    ensures ReadWord(arg + tail, false) == Some((arg, tail))
  {
    if arg == [] {
      assert arg + tail == tail;
    } else {
      ReadSafe(arg[1..], tail);
      assert (arg + tail)[1..] == arg[1..] + tail;
      assert [arg[0]] + arg[1..] == arg;
    }
  }

  lemma ReadRendered(arg: string, tail: string)
    requires AtWordEnd(tail)
    ensures ReadWord(Render(arg) + tail, false) == Some((arg, tail))
  {
    if IsSafeWord(arg) {
      ReadSafe(arg, tail);
    } else {
      ReadQuoted(arg, tail);
    }
  }

  /** A word that does not start at a word end is read, then the rest. */
  lemma WordsStep(s: string, w: string, tail: string)
    requires !AtWordEnd(s) && ReadWord(s, false) == Some((w, tail))
    ensures Words(s) == match Words(tail) case None => None case Some(ws) => Some([w] + ws)
  {
  }

  /** A shell reading the command line finds exactly the original arguments,
      one word each (the empty list gives no words). */
  lemma {:induction false} CommandLineWords(argv: seq<string>)
    ensures Words(CommandLine(argv)) == Some(argv)
  {
    if |argv| == 1 {
      WordsOfLast(argv[0]);
      assert [argv[0]] == argv;
    } else if |argv| > 1 {
      CommandLineWords(argv[1..]);
      WordsOfCons(argv[0], argv[1..]);
      assert [argv[0]] + argv[1..] == argv;
    }
  }

  lemma WordsOfLast(arg: string)
    ensures Words(Render(arg)) == Some([arg])
  {
    WordsOfRendered(arg, []);
    assert Render(arg) + [] == Render(arg);
    assert Words([]) == Some([]);
    assert [arg] + [] == [arg];
  }

  lemma WordsOfCons(arg: string, rest: seq<string>)
    requires rest != [] && Words(CommandLine(rest)) == Some(rest)
    ensures Words(Render(arg) + " " + CommandLine(rest)) == Some([arg] + rest)
  {
    var tail := " " + CommandLine(rest);
    WordsOfRendered(arg, tail);
    AppendAssoc(Render(arg), " ", CommandLine(rest));
    assert tail[0] == ' ' && tail[1..] == CommandLine(rest);
    assert Words(tail) == Words(CommandLine(rest));
  }

  /** A rendered argument is one word, after which the rest is read. */
  lemma WordsOfRendered(arg: string, tail: string)
    requires AtWordEnd(tail)
    ensures Words(Render(arg) + tail) == match Words(tail) case None => None case Some(ws) => Some([arg] + ws)
  {
    var s := Render(arg) + tail;
    ReadRendered(arg, tail);
    assert s[0] == Render(arg)[0];
    WordsStep(s, arg, tail);
  }

  /** The command line `argv2sh` returns is empty exactly for the empty
      list, and otherwise neither starts nor ends with a space. */
  lemma {:induction false} CommandLineEdges(argv: seq<string>)
    ensures CommandLineAsWritten(argv) == "" <==> argv == []
    ensures argv != [] ==> CommandLineAsWritten(argv)[0] != ' '
    ensures argv != [] ==> CommandLineAsWritten(argv)[|CommandLineAsWritten(argv)| - 1] != ' '
  {
    if |argv| > 1 {
      var init := argv[..|argv| - 1];
      CommandLineEdges(init);
      RenderedEdges(argv[|argv| - 1]);
      var c, r := CommandLineAsWritten(init), RenderAsWritten(argv[|argv| - 1]);
      assert CommandLineAsWritten(argv) == c + " " + r;
      assert (c + " " + r)[0] == c[0];
      assert (c + " " + r)[|c + " " + r| - 1] == r[|r| - 1];
    } else if |argv| == 1 {
      RenderedEdges(argv[0]);
    }
  }

  /** A rendered argument is non-empty and has no space at either end. */
  lemma RenderedEdges(arg: string)
    ensures var r := RenderAsWritten(arg); r != [] && r[0] != ' ' && r[|r| - 1] != ' '
  {
    if IsSafeWord(arg) {
      assert IsSafeChar(arg[0]) && IsSafeChar(arg[|arg| - 1]);
    } else if NewlineBare(arg) {
      var w := arg[..|arg| - 1];
      assert IsSafeChar(w[0]) && arg[0] == w[0];
    }
  }

  /** Finding: as written, an argument made of safe characters followed by one
      newline passes the pattern and is left bare, so a shell reading the
      command line ends the command at that newline and the word loses it;
      with the corrected rendering the same argument list reads back intact. */
  lemma AsWrittenLeavesNewlineBare()
    ensures CommandLineAsWritten(["echo", "foo\n"]) == "echo foo\n"
    ensures Words(CommandLineAsWritten(["echo", "foo\n"])) == Some(["echo", "foo"])
    ensures Words(CommandLine(["echo", "foo\n"])) == Some(["echo", "foo\n"])
  {
    var argv := ["echo", "foo\n"];
    assert IsSafeWord("echo");
    assert IsSafeWord("foo");
    assert "foo\n"[..3] == "foo";
    assert NewlineBare("foo\n");
    assert argv[..1] == ["echo"];
    assert CommandLineAsWritten(argv) == "echo" + " " + "foo\n";
    ReadSafe("echo", " foo\n");
    assert "echo" + " foo\n" == "echo" + " " + "foo\n";
    WordsStep("echo" + " foo\n", "echo", " foo\n");
    assert " foo\n"[1..] == "foo\n";
    assert Words(" foo\n") == Words("foo\n");
    ReadSafe("foo", "\n");
    assert "foo" + "\n" == "foo\n";
    WordsStep("foo\n", "foo", "\n");
    assert Words("\n") == Some([]);
    assert ["foo"] + [] == ["foo"];
    assert ["echo"] + ["foo"] == ["echo", "foo"];
    CommandLineWords(argv);
  }

  // ---------------------------------------------------------------------------
  // sherrcheck

  /** Python 2's `repr` of a byte string: single quotes unless the text holds a
      single quote and no double quote; backslash escapes for the quote, the
      backslash, tab, newline, carriage return, and `\xNN` for other bytes
      outside printable ASCII. */
  function ReprStr(s: string): string
  {
    var quote := if '\'' in s && '"' !in s then '"' else '\'';
    [quote] + ReprBody(s, quote) + [quote]
  }

  function HexDigit(d: nat): char
    requires d < 16
  {
    "0123456789abcdef"[d]
  }

  function ReprBody(s: string, quote: char): string
  {
    if s == [] then []
    else
      var c := s[0];
      (if c == quote || c == '\\' then ['\\', c]
       else if c == '\t' then "\\t"
       else if c == '\n' then "\\n"
       else if c == '\r' then "\\r"
       else if c < ' ' || c as int >= 0x7f then "\\x" + [HexDigit(c as int / 16 % 16), HexDigit(c as int % 16)]
       else [c])
      + ReprBody(s[1..], quote)
  }

  function JoinReprs(items: seq<string>): string
  {
    if items == [] then ""
    else if |items| == 1 then ReprStr(items[0])
    else ReprStr(items[0]) + ", " + JoinReprs(items[1..])
  }

  /** `repr(sh)` for None, shell code, or an argument list. */
  function ReprCommand(sh: Option<Command>): string
  {
    match sh
    case None => "None"
    case Some(ShellCode(text)) => ReprStr(text)
    case Some(ArgList(args)) => "[" + JoinReprs(args) + "]"
  }

  /** The exception `sherrcheck` raises, with the attributes it sets. */
  datatype ShError = ShError(message: string, sh: Option<Command>, returncode: Option<int>, stderr: Option<string>)

  /** The status part of the message: an exit status, or for a negative code
      the number of the signal that killed the command. */
  function StatusPhrase(returncode: Option<int>): string
  {
    match returncode
    case None => ""
    case Some(n) =>
      if n >= 0 then " failed with exit status [" + Decimal.FormatInt(n) + "]"
      else " killed by signal [" + Decimal.FormatInt(-n) + "]"
  }

  function ErrorMessage(sh: Option<Command>, stderr: Option<string>, returncode: Option<int>, verbose: bool): string
  {
    "shell code"
    + (if verbose then " [" + ReprCommand(sh) + "]" else "")
    + StatusPhrase(returncode)
    + (if stderr.Some? && verbose then ", stderr is [" + ReprStr(stderr.value) + "]" else "")
  }

  /** `sherrcheck`: an error exactly when there is a non-zero exit status or a
      non-empty standard error; the error carries the three inputs unchanged. */
  function SherrCheck(sh: Option<Command>, stderr: Option<string>, returncode: Option<int>, verbose: bool): (e: Option<ShError>)
    ensures e.Some? <==> (returncode.Some? && returncode.value != 0) || (stderr.Some? && stderr.value != "")
    ensures e.Some? ==> e.value.sh == sh && e.value.returncode == returncode && e.value.stderr == stderr
    ensures e.Some? ==> e.value.message == ErrorMessage(sh, stderr, returncode, verbose)
  {
    if (returncode.Some? && returncode.value != 0) || (stderr.Some? && stderr.value != "") then
      Some(ShError(ErrorMessage(sh, stderr, returncode, verbose), sh, returncode, stderr))
    else None
  }

  /** Without `verbose` the message is the status phrase alone: the same for
      every command and every standard error. */
  lemma QuietMessage(sh: Option<Command>, stderr: Option<string>, returncode: Option<int>)
    ensures ErrorMessage(sh, stderr, returncode, false) == "shell code" + StatusPhrase(returncode)
  {
    var p := StatusPhrase(returncode);
    assert ErrorMessage(sh, stderr, returncode, false) == "shell code" + "" + p + "";
    assert "shell code" + "" == "shell code";
    assert "shell code" + p + "" == "shell code" + p;
  }

  /** A negative code is reported as a signal whose number reads back as the
      positive value `-returncode`; a non-negative one as that exit status.
      Either way the bracketed number reads back as the magnitude of the
      code, and the phrase says which case it is. */
  lemma StatusPhraseReadsBack(returncode: int)
    ensures var digits := Decimal.FormatInt(if returncode < 0 then -returncode else returncode);
      && StatusPhrase(Some(returncode)) == StatusLead(returncode < 0) + digits + "]"
      && Decimal.ParseInt(digits) == Some(if returncode < 0 then -returncode else returncode)
  {
    Decimal.ParseFormatInt(if returncode < 0 then -returncode else returncode);
  }

  /** The words before the number: which of the two cases the phrase reports. */
  function StatusLead(signalled: bool): string
  {
    if signalled then " killed by signal [" else " failed with exit status ["
  }

  // ---------------------------------------------------------------------------
  // runsh_i: reassembling lines from output chunks

  /** One `os.read` result, from the command's standard output or standard
      error; an empty chunk is end of file on that stream. */
  datatype Read = FromStdout(chunk: string) | FromStderr(chunk: string)

  datatype Drained = Drained(out: string, err: string)

  /** The text the select loop takes from each stream: reads are consumed, in
      order, until both streams have reported end of file. */
  function Drain(events: seq<Read>, stdoutDone: bool, stderrDone: bool): Drained
  {
    if (stdoutDone && stderrDone) || events == [] then Drained("", "")
    else
      match events[0]
      case FromStdout(c) =>
        var d := Drain(events[1..], stdoutDone || c == "", stderrDone);
        Drained(c + d.out, d.err)
      case FromStderr(c) =>
        var d := Drain(events[1..], stdoutDone, stderrDone || c == "");
        Drained(d.out, c + d.err)
  }

  /** The lines of a text: each ends just after a newline, except a final
      unterminated remainder, which is a line of its own when non-empty. */
  function SplitLines(text: string): seq<string>
    decreases |text|
  {
    if text == "" then []
    else
      var k := Find(text, '\n', 0);
      if k == -1 then [text] else [text[..k + 1]] + SplitLines(text[k + 1..])
  }

  predicate NoNewline(s: string) { forall i :: 0 <= i < |s| ==> s[i] != '\n' }

  /** A line that ends in its only newline. */
  predicate IsCompleteLine(line: string)
  {
    line != [] && line[|line| - 1] == '\n' && NoNewline(line[..|line| - 1])
  }

  predicate AllComplete(lines: seq<string>) { forall i :: 0 <= i < |lines| ==> IsCompleteLine(lines[i]) }

  /** Joining the lines gives back the text. */
  lemma {:induction false} SplitLinesConcat(text: string)
    ensures Concat(SplitLines(text)) == text
    decreases |text|
  {
    if text != "" {
      var k := Find(text, '\n', 0);
      if k != -1 {
        SplitLinesConcat(text[k + 1..]);
        assert text[..k + 1] + text[k + 1..] == text;
      }
    }
  }

  /** Every line is non-empty and holds a newline only at its end; every line
      but the last ends with a newline. */
  lemma {:induction false} SplitLinesShape(text: string)
    ensures forall i :: 0 <= i < |SplitLines(text)| ==>
      SplitLines(text)[i] != "" && NoNewline(SplitLines(text)[i][..|SplitLines(text)[i]| - 1])
    ensures forall i :: 0 <= i < |SplitLines(text)| - 1 ==> IsCompleteLine(SplitLines(text)[i])
    decreases |text|
  {
    if text != "" {
      var k := Find(text, '\n', 0);
      if k != -1 {
        SplitLinesShape(text[k + 1..]);
        var line := text[..k + 1];
        assert line[..|line| - 1] == text[..k];
        assert IsCompleteLine(line);
      }
    }
  }

  /** Complete lines followed by a newline-free remainder split back into
      those lines and the remainder (when non-empty). */
  lemma {:induction false} SplitCompleteLines(lines: seq<string>, pending: string)
    requires AllComplete(lines) && NoNewline(pending)
    ensures SplitLines(Concat(lines) + pending) == lines + (if pending == "" then [] else [pending])
  {
    if lines == [] {
      assert Concat(lines) + pending == pending;
      if pending != "" {
        assert Find(pending, '\n', 0) == -1;
      }
    } else {
      var line := lines[0];
      var rest := Concat(lines[1..]) + pending;
      assert Concat(lines) + pending == line + rest by {
        AppendAssoc(line, Concat(lines[1..]), pending);
      }
      SplitFirstLine(line, rest);
      SplitCompleteLines(lines[1..], pending);
      assert [line] + lines[1..] == lines;
    }
  }

  /** A complete line in front of any text is split off as the first line. */
  lemma SplitFirstLine(line: string, rest: string)
    requires IsCompleteLine(line)
    ensures SplitLines(line + rest) == [line] + SplitLines(rest)
  {
    var text := line + rest;
    assert forall i :: 0 <= i < |line| - 1 ==> text[i] == line[..|line| - 1][i];
    assert text[|line| - 1] == '\n';
    assert Find(text, '\n', 0) == |line| - 1;
    assert text[..|line|] == line;
    assert text[|line|..] == rest;
  }

  /** One pass of the inner loop of `runsh_i` over a non-empty standard output
      chunk `s`: each newline completes a line (the pending partial line, then
      the chunk's text up to and including that newline), and the text after
      the last newline becomes the new pending partial line. */
  method TakeChunk(pending: string, s: string) returns (complete: seq<string>, rest: string)
    requires NoNewline(pending)
    ensures AllComplete(complete) && NoNewline(rest)
    ensures Concat(complete) + rest == pending + s
    ensures complete + (if rest == "" then [] else [rest]) == SplitLines(pending + s)
  {
    var buffer := pending;
    complete := [];
    var i := 0;
    var j := Find(s, '\n', 0);
    while j != -1
      invariant 0 <= i <= |s|
      invariant j == Find(s, '\n', i)
      invariant Concat(complete) + buffer == pending + s[..i]
      invariant AllComplete(complete) && NoNewline(buffer)
      decreases |s| - i
    {
      var line := buffer + s[i..j + 1];
      CompleteLineStep(buffer, s, i, j);
      ConcatLineStep(complete, buffer, pending, s, i, j);
      complete := complete + [line];
      buffer := "";
      i := j + 1;
      j := Find(s, '\n', i);
    }
    rest := buffer + s[i..];
    RestStep(complete, buffer, pending, s, i);
    SplitCompleteLines(complete, rest);
  }

  /** The pending text and the chunk up to its next newline form a complete line. */
  lemma CompleteLineStep(buffer: string, s: string, i: int, j: int)
    requires NoNewline(buffer) && 0 <= i <= j < |s| && s[j] == '\n'
    requires forall k :: i <= k < j ==> s[k] != '\n'
    ensures IsCompleteLine(buffer + s[i..j + 1])
  {
    var line := buffer + s[i..j + 1];
    assert line[..|line| - 1] == buffer + s[i..j];
    forall k | 0 <= k < |buffer| + (j - i)
      ensures (buffer + s[i..j])[k] != '\n'
    {
      if k >= |buffer| {
        assert (buffer + s[i..j])[k] == s[i + k - |buffer|];
      }
    }
  }

  lemma ConcatLineStep(complete: seq<string>, buffer: string, pending: string, s: string, i: int, j: int)
    requires 0 <= i <= j < |s| && Concat(complete) + buffer == pending + s[..i]
    ensures Concat(complete + [buffer + s[i..j + 1]]) == pending + s[..j + 1]
  {
    var line := buffer + s[i..j + 1];
    ConcatAppend(complete, [line]);
    assert Concat([line]) == line + Concat([]);
    assert s[..j + 1] == s[..i] + s[i..j + 1];
    AppendAssoc(Concat(complete), buffer, s[i..j + 1]);
    AppendAssoc(pending, s[..i], s[i..j + 1]);
  }

  lemma RestStep(complete: seq<string>, buffer: string, pending: string, s: string, i: int)
    requires 0 <= i <= |s| && Concat(complete) + buffer == pending + s[..i]
    ensures Concat(complete) + (buffer + s[i..]) == pending + s
  {
    assert s == s[..i] + s[i..];
    AppendAssoc(Concat(complete), buffer, s[i..]);
    AppendAssoc(pending, s[..i], s[i..]);
  }

  lemma AppendAssoc(a: string, b: string, c: string)
    ensures a + (b + c) == (a + b) + c
  {
  }

  lemma DrainStep(events: seq<Read>, n: nat, stdoutDone: bool, stderrDone: bool)
    requires n < |events| && !(stdoutDone && stderrDone)
    ensures Drain(events[n..], stdoutDone, stderrDone) ==
      match events[n]
      case FromStdout(c) =>
        var d := Drain(events[n + 1..], stdoutDone || c == "", stderrDone);
        Drained(c + d.out, d.err)
      case FromStderr(c) =>
        var d := Drain(events[n + 1..], stdoutDone, stderrDone || c == "");
        Drained(d.out, c + d.err)
  {
    assert events[n..][0] == events[n] && events[n..][1..] == events[n + 1..];
  }

  /** `runsh_i(sh)` with the process replaced by the sequence of reads the
      select loop obtains and the status `p.wait()` returns: the generator's
      lines are the lines of everything read from standard output, and only
      after all of them `sherrcheck` judges the collected standard error and
      the status. */
  method RunshI(sh: Command, events: seq<Read>, exitStatus: int) returns (lines: seq<string>, failure: Option<ShError>)
    ensures lines == SplitLines(Drain(events, false, false).out)
    ensures failure == SherrCheck(Some(sh), Some(Drain(events, false, false).err), Some(exitStatus), true)
  {
    var stdoutDone, stderrDone := false, false;
    var pending := "";
    var stderr := "";
    lines := [];
    ghost var out := "";
    var n := 0;
    while !(stdoutDone && stderrDone) && n < |events|
      invariant 0 <= n <= |events|
      invariant Drain(events, false, false).out == out + Drain(events[n..], stdoutDone, stderrDone).out
      invariant Drain(events, false, false).err == stderr + Drain(events[n..], stdoutDone, stderrDone).err
      invariant Concat(lines) + pending == out
      invariant AllComplete(lines) && NoNewline(pending)
    {
      DrainStep(events, n, stdoutDone, stderrDone);
      ghost var total := Drain(events, false, false);
      var s := events[n].chunk;
      if events[n].FromStdout? {
        ghost var d := Drain(events[n + 1..], stdoutDone || s == "", stderrDone);
        assert total.out == out + (s + d.out) && total.err == stderr + d.err;
        if s == "" {
          stdoutDone := true;
          assert s + d.out == d.out;
        } else {
          var complete, rest := TakeChunk(pending, s);
          ConcatAppend(lines, complete);
          AppendAssoc(Concat(lines), Concat(complete), rest);
          AppendAssoc(Concat(lines), pending, s);
          lines, pending := lines + complete, rest;
          AppendAssoc(out, s, d.out);
          out := out + s;
        }
      } else {
        ghost var d := Drain(events[n + 1..], stdoutDone, stderrDone || s == "");
        assert total.out == out + d.out && total.err == stderr + (s + d.err);
        if s == "" {
          stderrDone := true;
          assert s + d.err == d.err;
        } else {
          AppendAssoc(stderr, s, d.err);
          stderr := stderr + s;
        }
      }
      n := n + 1;
    }
    assert Drain(events[n..], stdoutDone, stderrDone) == Drained("", "") by {
      if n == |events| {
        assert events[n..] == [];
      }
    }
    assert out == Drain(events, false, false).out;
    assert stderr == Drain(events, false, false).err;
    SplitCompleteLines(lines, pending);
    if pending != "" {
      lines := lines + [pending];
    }
    failure := SherrCheck(Some(sh), Some(stderr), Some(exitStatus), true);
  }
}
