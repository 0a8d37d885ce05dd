/**
 * The command interpreter of command.hpp and command.cpp: the command values,
 * the alias table, the help table, the two lookups that fall back to a default
 * on a miss, and the reading of a command line from the input stream.
 */
module Commands {

  /** `enum class Command`. */
  datatype Command = Quit | Help | CmdInput | TxtInput | Unknown

  /** The values of `Command`: five distinct ones. */
  function AllCommands(): (all: set<Command>)
    ensures |all| == 5
  {
    {Quit, Help, CmdInput, TxtInput, Unknown}
  }

  /** `Command` has no values besides the five listed. */
  lemma AllCommandsComplete(c: Command)
    ensures c in AllCommands()
  {
  }

  /** `command_list`: the alias typed by the user for each command. */
  function CommandList(): (aliases: map<string, Command>)
    ensures aliases.Keys == {"q", "h", "cmd", "txt"}
    ensures Unknown !in aliases.Values
    ensures forall a, b :: a in aliases && b in aliases && aliases[a] == aliases[b] ==> a == b
  {
    map["q" := Quit, "h" := Help, "cmd" := CmdInput, "txt" := TxtInput]
  }

  /** `command_descriptions`: a help text for each command but `Unknown`. */
  function CommandDescriptions(): (descriptions: map<Command, string>)
    ensures descriptions.Keys == AllCommands() - {Unknown}
    ensures forall c :: c in descriptions ==> descriptions[c] != ""
  {
    map[
      Quit := "shuts down the program",
      Help := "shows help",
      CmdInput := "selects input from command line",
      TxtInput := "selects input from text file"
    ]
  }

  /** `str_to_command`: the command of an alias; `Unknown` for any other string. */
  function StrToCommand(cmd: string): (c: Command)
    ensures c == Quit <==> cmd == "q"
    ensures c == Help <==> cmd == "h"
    ensures c == CmdInput <==> cmd == "cmd"
    ensures c == TxtInput <==> cmd == "txt"
    ensures c == Unknown <==> cmd !in CommandList()
  {
    if cmd in CommandList() then CommandList()[cmd] else Unknown
  }

  /** `get_command_help`: the description of a command; the empty string for one without. */
  function GetCommandHelp(cmd: Command): (help: string)
    ensures cmd in CommandDescriptions() ==> help == CommandDescriptions()[cmd]
    ensures help == "" <==> cmd == Unknown
  {
    AllCommandsComplete(cmd);
    if cmd in CommandDescriptions() then CommandDescriptions()[cmd] else ""
  }

  /** Two strings naming the same known command are the same alias. */
  lemma AliasesAreDistinct(a: string, b: string)
    requires StrToCommand(a) == StrToCommand(b) != Unknown
    ensures a == b
  {
  }

  /** Every command but `Unknown` has an alias. */
  lemma EveryCommandHasAlias(c: Command)
    requires c != Unknown
    ensures exists a :: a in CommandList() && StrToCommand(a) == c
  {
    var a := match c
      case Quit => "q"
      case Help => "h"
      case CmdInput => "cmd"
      case TxtInput => "txt";
    assert a in CommandList() && StrToCommand(a) == c;
  }

  /** The command of every alias has a non-empty help text. */
  lemma KnownAliasHasHelp(a: string)
    requires a in CommandList()
    ensures GetCommandHelp(StrToCommand(a)) != ""
  {
  }

  /** Whitespace as `std::ws` skips it in the default locale. */
  predicate IsSpace(ch: char) {
    ch == ' ' || ch == '\t' || ch == '\n' || ch == '\U{000B}' || ch == '\U{000C}' || ch == '\r'
  }

  /** `istream >> std::ws`: the input after its leading whitespace. */
  function SkipWhitespace(s: string): (rest: string)
    ensures |rest| <= |s|
    ensures rest != [] ==> !IsSpace(rest[0])
  {
    if s != [] && IsSpace(s[0]) then SkipWhitespace(s[1..]) else s
  }

  /** Skipping whitespace leaves a suffix of the input. */
  lemma {:induction false} SkipWhitespaceIsSuffix(s: string)
    ensures SkipWhitespace(s) == s[|s| - |SkipWhitespace(s)|..]
  {
    if s != [] && IsSpace(s[0]) {
      SkipWhitespaceIsSuffix(s[1..]);
      assert s[1..][|s[1..]| - |SkipWhitespace(s[1..])|..] == s[|s| - |SkipWhitespace(s)|..];
    }
  }

  /** Every character skipped is whitespace. */
  lemma {:induction false} SkippedAreSpaces(s: string, i: int)
    requires 0 <= i < |s| - |SkipWhitespace(s)|
    ensures IsSpace(s[i])
  {
    if i > 0 {
      SkippedAreSpaces(s[1..], i - 1);
    }
  }

  /** `std::getline`: the input up to, and without, the first line break. */
  function ReadLine(s: string): (line: string)
    ensures |line| <= |s|
    ensures line == s[..|line|]
  {
    if s == [] || s[0] == '\n' then [] else [s[0]] + ReadLine(s[1..])
  }

  /** The line read has no line break and ends at the input's end or at its first line break. */
  lemma {:induction false} ReadLineIsFirstLine(s: string)
    ensures '\n' !in ReadLine(s)
    ensures |ReadLine(s)| == |s| || s[|ReadLine(s)|] == '\n'
  {
    if s != [] && s[0] != '\n' {
      ReadLineIsFirstLine(s[1..]);
    }
  }

  /**
   * `get_command`: skips leading whitespace (blank lines included), reads the
   * rest of the line and looks it up as it stands. `input` is what remains of
   * the input stream.
   */
  function GetCommand(input: string): (c: Command)
    ensures c == Unknown <==> ReadLine(SkipWhitespace(input)) !in CommandList()
    ensures input == [] ==> c == Unknown
  {
    StrToCommand(ReadLine(SkipWhitespace(input)))
  }

  /** Leading whitespace never changes the command read. */
  lemma {:induction false} LeadingWhitespaceIgnored(ws: string, s: string)
    requires forall i :: 0 <= i < |ws| ==> IsSpace(ws[i])
    ensures GetCommand(ws + s) == GetCommand(s)
  {
    if ws != [] {
      assert (ws + s)[0] == ws[0] && (ws + s)[1..] == ws[1..] + s;
      assert SkipWhitespace(ws + s) == SkipWhitespace(ws[1..] + s);
      LeadingWhitespaceIgnored(ws[1..], s);
    } else {
      assert ws + s == s;
    }
  }

  /** A line break ends the line read; a string without one is read whole. */
  lemma {:induction false} ReadLineStopsAtBreak(line: string, rest: string)
    requires '\n' !in line
    ensures ReadLine(line + "\n" + rest) == line
    ensures ReadLine(line) == line
  {
    if line == [] {
      assert line + "\n" + rest == "\n" + rest;
    } else {
      assert (line + "\n" + rest)[0] == line[0];
      assert (line + "\n" + rest)[1..] == line[1..] + "\n" + rest;
      ReadLineStopsAtBreak(line[1..], rest);
    }
  }

  /**
   * A line that does not start with whitespace is matched whole and exactly:
   * the command read is the lookup of that line, whatever follows the line break.
   */
  lemma LineMatchedExactly(line: string, rest: string)
    requires line != [] && !IsSpace(line[0]) && '\n' !in line
    ensures GetCommand(line + "\n" + rest) == StrToCommand(line)
    ensures GetCommand(line) == StrToCommand(line)
  {
    assert (line + "\n" + rest)[0] == line[0];
    assert SkipWhitespace(line + "\n" + rest) == line + "\n" + rest;
    assert SkipWhitespace(line) == line;
    ReadLineStopsAtBreak(line, rest);
  }

  /**
   * Nothing after the alias is dropped, trailing whitespace included: an alias
   * followed by more characters on its line is not recognised.
   */
  lemma AliasWithTrailingTextRejected(a: string, tail: string)
    requires a in CommandList()
    requires tail != [] && '\n' !in tail
    ensures GetCommand(a + tail) == Unknown
  {
    var line := a + tail;
    assert line[0] == a[0] && |line| > |a|;
    assert line !in CommandList();
    LineMatchedExactly(line, "");
  }

  /** Leading spaces are skipped: `"  q"` reads as `q`. */
  lemma IndentedAliasRecognised()
    ensures GetCommand("  q") == Quit
  {
    assert "  q" == "  " + "q";
    LeadingWhitespaceIgnored("  ", "q");
    LineMatchedExactly("q", "");
  }

  /** Blank lines are skipped too, and only the first non-blank line is read. */
  lemma BlankLinesSkipped()
    ensures GetCommand("\n\t h\nq") == Help
  {
    assert "\n\t h\nq" == "\n\t " + "h\nq";
    LeadingWhitespaceIgnored("\n\t ", "h\nq");
    LineMatchedExactly("h", "q");
  }

  /** `"q "` is not `q`: the trailing space is part of the line looked up. */
  lemma TrailingSpaceRejected()
    ensures GetCommand("q ") == Unknown
  {
    assert "q " == "q" + " ";
    AliasWithTrailingTextRejected("q", " ");
  }

  /** The match is case-sensitive: `"Q"` is not `q`. */
  lemma UpperCaseRejected()
    ensures GetCommand("Q") == Unknown
  {
    LineMatchedExactly("Q", "");
    assert "Q"[0] != "q"[0] && "Q"[0] != "h"[0] && |"Q"| != |"cmd"|;
  }

  /** An exhausted input reads as the empty line, which is no alias. */
  lemma EmptyInputRejected()
    ensures GetCommand("") == Unknown
  {
    assert ReadLine(SkipWhitespace("")) == "";
  }
}
