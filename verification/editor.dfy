/** The read-eval-print loop's special commands (`src/editor.rs`).

    A line that starts with `.` is a command for the editor itself and never
    reaches Lua: `.help` prints the command list, and `.format` chooses how
    tables are printed. Everything a command prints is returned as text. */
module Editor {
  import opened Results
  import opened Strings

  /** How tables are printed. */
  datatype TableFormat = ComfyTable(nested: bool) | Inspect | Address

  /** The table format a new editor starts with: nested tables. */
  const InitialFormat: TableFormat := ComfyTable(true)

  const HelpText: string :=
    ".help\tPrint this message\n"
    + ".format <inspect|address|comfytable> [true|false]\tConfigure table printing, boolean configures nesting\n"

  const UnknownSubcommand: string := "unknown subcommand\n"

  const UnknownCommand: string := "unknown command\n"

  /** `bool`'s `Display`. */
  function ShowBool(b: bool): string {
    if b then "true" else "false"
  }

  /** `str::parse::<bool>`: exactly the two words `Display` produces. */
  function ParseBool(s: string): (r: Option<bool>)
    ensures r.Some? <==> exists b :: s == ShowBool(b)
    ensures forall b :: s == ShowBool(b) ==> r == Some(b)
  {
    if s == "true" then assert s == ShowBool(true); Some(true)
    else if s == "false" then assert s == ShowBool(false); Some(false)
    else None
  }

  /** The nesting flag of `.format comfytable [flag]`: a missing or
      unreadable flag reads as `false`. */
  function NestingFlag(words: seq<string>): bool {
    var flag := if |words| > 2 then words[2] else "";
    match ParseBool(flag)
    case Some(b) => b
    case None => false
  }

  /** The state after a command, and what the command printed. */
  datatype Outcome = Outcome(format: TableFormat, output: string)

  /** `eval_special`: the command is the first whitespace-separated word
      after the dot, `.format`'s subcommand the second, and `comfytable`'s
      flag the third. It never reports an error. */
  function EvalSpecial(line: string, format: TableFormat): (o: Outcome)
    requires StartsWith(line, ".")
    ensures o.output != "" ==> o.format == format
    ensures o.output in {"", HelpText, UnknownSubcommand, UnknownCommand}
    ensures var words := Tokens(line[1..]);
      o.output == "" <==> |words| >= 2 && words[0] == "format" && words[1] in {"inspect", "address", "comfytable"}
    ensures var words := Tokens(line[1..]);
      |words| >= 1 && words[0] == "help" ==> o == Outcome(format, HelpText)
    ensures var words := Tokens(line[1..]);
      |words| >= 2 && words[0] == "format" ==>
        && (words[1] == "inspect" ==> o.format == Inspect)
        && (words[1] == "address" ==> o.format == Address)
        && (words[1] == "comfytable" ==> o.format == ComfyTable(|words| > 2 && words[2] == "true"))
    ensures var words := Tokens(line[1..]);
      |words| >= 1 && words[0] == "format" && !(|words| >= 2 && words[1] in {"inspect", "address", "comfytable"}) ==>
        o.output == UnknownSubcommand
    ensures var words := Tokens(line[1..]);
      (|words| == 0 || words[0] !in {"help", "format"}) ==> o.output == UnknownCommand
  {
    var words := Tokens(line[1..]);
    if |words| == 0 then Outcome(format, UnknownCommand)
    else if words[0] == "help" then Outcome(format, HelpText)
    else if words[0] == "format" then
      if |words| < 2 then Outcome(format, UnknownSubcommand)
      else if words[1] == "inspect" then Outcome(Inspect, "")
      else if words[1] == "address" then Outcome(Address, "")
      else if words[1] == "comfytable" then Outcome(ComfyTable(NestingFlag(words)), "")
      else Outcome(format, UnknownSubcommand)
    else Outcome(format, UnknownCommand)
  }

  /** What `run` does with one line read: a line starting with a dot is a
      special command, any other line is handed to Lua unchanged. */
  datatype Action = Special(outcome: Outcome) | Evaluate(chunk: string)

  function Dispatch(line: string, format: TableFormat): (a: Action)
    ensures a.Special? <==> StartsWith(line, ".")
    ensures a.Evaluate? ==> a.chunk == line
    ensures a.Special? ==> a.outcome == EvalSpecial(line, format)
  {
    if StartsWith(line, ".") then Special(EvalSpecial(line, format)) else Evaluate(line)
  }

  /** The table format after `run` has read the given lines. */
  function FormatAfter(lines: seq<string>, format: TableFormat): TableFormat
    decreases |lines|
  {
    if |lines| == 0 then format
    else
      var next := match Dispatch(lines[0], format)
        case Special(o) => o.format
        case Evaluate(_) => format;
      FormatAfter(lines[1..], next)
  }

  /* ---------------------------------------------------------------------- */
  /*  Properties                                                            */
  /* ---------------------------------------------------------------------- */

  /** `ParseBool` reads back what `ShowBool` writes. */
  lemma ParseShowBool(b: bool)
    ensures ParseBool(ShowBool(b)) == Some(b)
  {
  }

  /** The words of the command that selects a format. */
  function FormatWords(f: TableFormat): (ws: seq<string>)
    ensures forall i :: 0 <= i < |ws| ==> IsWord(ws[i])
  {
    match f
    case ComfyTable(nested) => ["format", "comfytable", ShowBool(nested)]
    case Inspect => ["format", "inspect"]
    case Address => ["format", "address"]
  }

  /** The command line that selects a format, words separated by spaces. */
  function FormatCommand(f: TableFormat): string {
    "." + Unwords(FormatWords(f))
  }

  /** Every format can be selected by a command, whatever the current one. */
  lemma FormatCommandSelects(f: TableFormat, current: TableFormat)
    ensures EvalSpecial(FormatCommand(f), current) == Outcome(f, "")
  {
    assert FormatCommand(f)[1..] == Unwords(FormatWords(f));
    TokensUnwords(FormatWords(f));
  }

  /** The initial format, nested tables, can be restored. */
  lemma InitialFormatRestorable(current: TableFormat)
    ensures StartsWith(".format comfytable true", ".")
    ensures EvalSpecial(".format comfytable true", current) == Outcome(InitialFormat, "")
  {
    InitialFormatCommand();
    FormatCommandSelects(InitialFormat, current);
  }

  /** The command that selects the initial format, spelled out. */
  lemma InitialFormatCommand()
    ensures FormatCommand(InitialFormat) == ".format comfytable true"
  {
    var ws := FormatWords(InitialFormat);
    assert Unwords(ws[2..]) == "true";
    assert Unwords(ws[1..]) == "comfytable " + "true";
  }

  /** `.format comfytable` with no flag, or a flag other than `true`, turns
      nesting off. */
  lemma ComfyTableFlagDefaultsOff(line: string, format: TableFormat)
    requires StartsWith(line, ".")
    requires var words := Tokens(line[1..]);
      |words| >= 2 && words[0] == "format" && words[1] == "comfytable"
      && (|words| == 2 || words[2] != "true")
    ensures EvalSpecial(line, format) == Outcome(ComfyTable(false), "")
  {
  }

  /** Running the same command twice leaves what running it once leaves. */
  lemma EvalSpecialIdempotent(line: string, format: TableFormat)
    requires StartsWith(line, ".")
    ensures var once := EvalSpecial(line, format);
      EvalSpecial(line, once.format) == once
  {
  }

  /** Only the first three words matter: a command followed by any further
      words does the same. */
  lemma OnlyThreeWordsMatter(a: string, b: string, format: TableFormat)
    requires StartsWith(a, ".") && StartsWith(b, ".")
    requires var wa, wb := Tokens(a[1..]), Tokens(b[1..]);
      wa[..if |wa| < 3 then |wa| else 3] == wb[..if |wb| < 3 then |wb| else 3]
    ensures EvalSpecial(a, format) == EvalSpecial(b, format)
  {
    var wa, wb := Tokens(a[1..]), Tokens(b[1..]);
    var ka, kb := if |wa| < 3 then |wa| else 3, if |wb| < 3 then |wb| else 3;
    assert |wa| == 0 <==> |wb| == 0 by {
      assert |wa[..ka]| == ka && |wb[..kb]| == kb;
    }
    if |wa| > 0 {
      assert wa[0] == wa[..ka][0] == wb[..kb][0] == wb[0];
      assert |wa| < 2 <==> |wb| < 2 by {
        assert |wa[..ka]| == ka && |wb[..kb]| == kb;
      }
      if |wa| >= 2 {
        assert wa[1] == wa[..ka][1] == wb[..kb][1] == wb[1];
        assert |wa| > 2 <==> |wb| > 2 by {
          assert |wa[..ka]| == ka && |wb[..kb]| == kb;
        }
        if |wa| > 2 {
          assert wa[2] == wa[..ka][2] == wb[..kb][2] == wb[2];
        }
        assert NestingFlag(wa) == NestingFlag(wb);
      }
    }
  }

  /** Whitespace between the dot and the command is skipped, so `. help`
      is `.help`. */
  lemma LeadingWhitespaceSkipped(ws: string, rest: string, format: TableFormat)
    requires AllWhitespace(ws)
    ensures EvalSpecial("." + ws + rest, format) == EvalSpecial("." + rest, format)
  {
    assert ("." + ws + rest)[1..] == ws + rest;
    assert ("." + rest)[1..] == rest;
    TokensSkipWhitespace(ws, rest);
  }

  /** Any run of whitespace between words acts like a single space. */
  lemma SpacingIrrelevant(a: string, ws: string, b: string, format: TableFormat)
    requires |ws| > 0 && AllWhitespace(ws)
    ensures EvalSpecial("." + a + ws + b, format) == EvalSpecial("." + a + " " + b, format)
  {
    assert ("." + a + ws + b)[1..] == a + ws + b;
    assert ("." + a + " " + b)[1..] == a + " " + b;
    TokensAroundWhitespace(a, ws, b);
    TokensAroundWhitespace(a, " ", b);
  }

  /** `.help` prints the command list and changes nothing. */
  lemma HelpKeepsFormat(format: TableFormat)
    ensures EvalSpecial(".help", format) == Outcome(format, HelpText)
  {
    assert ".help"[1..] == "help";
    TokensOfWord("help");
  }

  /** A session whose lines never start with a dot keeps its table format. */
  lemma {:induction false} EvaluationKeepsFormat(lines: seq<string>, format: TableFormat)
    requires forall i :: 0 <= i < |lines| ==> !StartsWith(lines[i], ".")
    ensures FormatAfter(lines, format) == format
    decreases |lines|
  {
    if |lines| > 0 {
      EvaluationKeepsFormat(lines[1..], format);
    }
  }

  /** After a format command the session uses the selected format, whatever
      came before. */
  lemma LastFormatCommandWins(lines: seq<string>, f: TableFormat, format: TableFormat)
    ensures FormatAfter(lines + [FormatCommand(f)], format) == f
  {
    FormatAfterAppend(lines, [FormatCommand(f)], format);
    var before := FormatAfter(lines, format);
    FormatCommandSelects(f, before);
    assert [FormatCommand(f)][1..] == [];
  }

  lemma {:induction false} FormatAfterAppend(a: seq<string>, b: seq<string>, format: TableFormat)
    ensures FormatAfter(a + b, format) == FormatAfter(b, FormatAfter(a, format))
    decreases |a|
  {
    if |a| > 0 {
      assert (a + b)[1..] == a[1..] + b;
      var next := match Dispatch(a[0], format)
        case Special(o) => o.format
        case Evaluate(_) => format;
      FormatAfterAppend(a[1..], b, next);
    } else {
      assert a + b == b;
    }
  }
}
