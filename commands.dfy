/**
 * Grading commands and `lineToCommand`: a line whose lower-cased text starts
 * with `gg: ` becomes a GatorGrader command over the rest of the line, any
 * other line a basic command over the whole line; either way the text is cut
 * into arguments by the tokenizer.
 */
module Commands {
  import opened Text
  import opened Tokenizer

  /**
   * A command with its argument list: `Special` for a `GatorGraderCommand`,
   * `Generic` for a `BasicCommand`. Both are built with console output off.
   */
  datatype Command = Special(args: seq<string>) | Generic(args: seq<string>)

  /** `line.toLowerCase(Locale.ENGLISH).startsWith("gg: ")`. */
  predicate HasSpecialPrefix(line: string) {
    StartsWith(Lower(line), "gg: ")
  }

  /** The prefix test ignores the case of the two letters only; colon and space must be exact. */
  lemma SpecialPrefixIff(line: string)
    ensures HasSpecialPrefix(line) <==>
      |line| >= 4 && (line[0] == 'g' || line[0] == 'G') && (line[1] == 'g' || line[1] == 'G') &&
      line[2] == ':' && line[3] == ' '
  {
    if |line| >= 4 {
      var low := Lower(line);
      assert low[..4] == [low[0], low[1], low[2], low[3]];
      assert "gg: " == ['g', 'g', ':', ' '];
      assert LowerChar('G') == 'g';
      forall k | 2 <= k < 4 ensures low[k] == LowerChar(line[k]) && (IsUpperAscii(line[k]) ==> low[k] as int >= 97) {
      }
    }
  }

  /** The case-sensitive selection of `parseCommands` implies the case-insensitive test. */
  lemma SelectedIsSpecial(line: string)
    requires StartsWith(line, "gg: ")
    ensures HasSpecialPrefix(line)
  {
    SpecialPrefixIff(line);
    assert line[..4] == "gg: ";
    assert line[0] == 'g' && line[1] == 'g' && line[2] == ':' && line[3] == ' ';
  }

  /** The command built for a line, as a value. */
  function Classify(line: string): Command {
    if HasSpecialPrefix(line) then Special(Tokens(line[4..])) else Generic(Tokens(line))
  }

  /**
   * `lineToCommand`: strip the prefix, pick the command kind, add every token in
   * order. It is the step-by-step counterpart of `Classify`, which the parse
   * specification uses.
   */
  method LineToCommand(line: string) returns (cmd: Command)
    ensures cmd.Special? <==> HasSpecialPrefix(line)
    ensures cmd.Special? ==> cmd.args == Tokens(line[4..])
    ensures cmd.Generic? ==> cmd.args == Tokens(line)
    ensures forall k :: 0 <= k < |cmd.args| ==> '"' !in cmd.args[k]
    ensures cmd == Classify(line)
  {
    var text := line;
    var special := false;
    if HasSpecialPrefix(line) {
      text := line[4..];
      special := true;
    }
    var args := Tokenize(text);
    cmd := if special then Special(args) else Generic(args);
  }

  /** Words written after `gg: ` give a GatorGrader command over exactly those words. */
  lemma ClassifySpecialRendered(ws: seq<string>)
    requires forall k :: 0 <= k < |ws| ==> Word(ws[k])
    ensures Classify("gg: " + Render(ws)) == Special(ws)
  {
    Prefixed(Render(ws));
    RenderTokens(ws);
  }

  /** Any text after `gg: ` makes a GatorGrader line, and stripping the prefix gives the text back. */
  lemma Prefixed(rest: string)
    ensures HasSpecialPrefix("gg: " + rest) && ("gg: " + rest)[4..] == rest
  {
    var line := "gg: " + rest;
    SpecialPrefixIff(line);
    assert line[..4] == "gg: ";
  }

  /** Words written out without the prefix give a basic command over exactly those words. */
  lemma ClassifyGenericRendered(ws: seq<string>)
    requires forall k :: 0 <= k < |ws| ==> Word(ws[k])
    requires !HasSpecialPrefix(Render(ws))
    ensures Classify(Render(ws)) == Generic(ws)
  {
    RenderTokens(ws);
  }

  /** A `gg: ` line gives a GatorGrader command over the words after the prefix. */
  lemma ClassifySpecialExample()
    ensures Classify("gg: check something") == Special(["check", "something"])
  {
    var ws := ["check", "something"];
    assert "gg: check something" == "gg: " + Render(ws);
    ClassifySpecialRendered(ws);
  }

  /** Any other line gives a basic command over all of its words. */
  lemma ClassifyGenericExample()
    ensures Classify("run something") == Generic(["run", "something"])
  {
    var ws := ["run", "something"];
    assert "run something" == Render(ws);
    SpecialPrefixIff(Render(ws));
    ClassifyGenericRendered(ws);
  }
}
