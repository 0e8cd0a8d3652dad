/**
 * `GatorGradleConfig` itself: the two settings, the owned command list, the
 * constructors, `with`, `size`, the getters, `toString`, the command pass
 * `parseCommands`, the header pass `parseHeader` and `parse`, which runs the
 * line filter and both passes over the lines of the file. The process-wide
 * singleton behind `create` and `get` is the explicit `Registry` object.
 */
module Config {
  import opened Wrappers
  import opened Text
  import opened LineFilter
  import opened Commands
  import opened Header

  /** Errors of the configuration object itself. */
  datatype ConfigError =
    | NullCommandList  // `gradingCommands` is still null: size() and toString() throw NullPointerException
    | NotCreated       // `get()` before `create()`

  /** The selection of `parseCommands`: the content starts with `gg: `, case-sensitively. */
  predicate IsCommandLine(line: Line) {
    StartsWith(line.content, "gg: ")
  }

  /** The lines `parseCommands` turns into commands, in order. */
  function CommandLines(lines: seq<Line>): seq<Line> {
    if lines == [] then []
    else (if IsCommandLine(lines[0]) then [lines[0]] else []) + CommandLines(lines[1..])
  }

  /** A line is selected exactly when it occurs and starts with `gg: `. */
  lemma {:induction false} CommandLinesMembers(lines: seq<Line>, x: Line)
    ensures x in CommandLines(lines) <==> x in lines && IsCommandLine(x)
  {
    if lines != [] {
      CommandLinesMembers(lines[1..], x);
      assert lines == [lines[0]] + lines[1..];
    }
  }

  /** Selection keeps the order of the lines, so the line numbers still increase. */
  lemma {:induction false} CommandLinesWellNumbered(lines: seq<Line>)
    requires WellNumbered(lines)
    ensures WellNumbered(CommandLines(lines))
  {
    if lines != [] {
      CommandLinesWellNumbered(lines[1..]);
      var r := CommandLines(lines[1..]);
      forall x | x in r ensures lines[0].number < x.number {
        CommandLinesMembers(lines[1..], x);
        var k :| 0 <= k < |lines[1..]| && lines[1..][k] == x;
        assert lines[k + 1] == x;
      }
    }
  }

  lemma {:induction false} CommandLinesAppend(a: seq<Line>, b: seq<Line>)
    ensures CommandLines(a + b) == CommandLines(a) + CommandLines(b)
  {
    if a == [] {
      assert a + b == b;
    } else {
      var head := if IsCommandLine(a[0]) then [a[0]] else [];
      assert (a + b)[0] == a[0] && (a + b)[1..] == a[1..] + b;
      assert CommandLines(a + b) == head + CommandLines(a[1..] + b);
      CommandLinesAppend(a[1..], b);
      assert head + (CommandLines(a[1..]) + CommandLines(b)) == (head + CommandLines(a[1..])) + CommandLines(b);
    }
  }

  /** The commands `parseCommands` builds: `lineToCommand` applied to each selected line, in order. */
  function CommandsFor(lines: seq<Line>): seq<Command> {
    var cl := CommandLines(lines);
    seq(|cl|, k requires 0 <= k < |cl| => Classify(cl[k].content))
  }

  lemma {:induction false} NoCommandLines(lines: seq<Line>)
    requires forall k :: 0 <= k < |lines| ==> !IsCommandLine(lines[k])
    ensures CommandLines(lines) == []
  {
    if lines != [] {
      NoCommandLines(lines[1..]);
    }
  }

  /** Among lines of which only the j-th is a `gg: ` line, that line gives the only command. */
  lemma {:induction false} CommandsForSingle(lines: seq<Line>, j: nat)
    requires j < |lines| && IsCommandLine(lines[j])
    requires forall k :: 0 <= k < |lines| && k != j ==> !IsCommandLine(lines[k])
    ensures CommandLines(lines) == [lines[j]]
    ensures CommandsFor(lines) == [Classify(lines[j].content)]
  {
    if j == 0 {
      NoCommandLines(lines[1..]);
    } else {
      CommandsForSingle(lines[1..], j - 1);
    }
  }

  /** A single line gives its command when it is a `gg: ` line, and nothing otherwise. */
  lemma CommandsForOne(l: Line)
    ensures CommandsFor([l]) == if IsCommandLine(l) then [Classify(l.content)] else []
  {
    assert [l][1..] == [];
    assert CommandLines([l]) == if IsCommandLine(l) then [l] else [];
  }

  /** Commands are built in line order: the commands of a + b are those of a, then those of b. */
  lemma CommandsForAppend(a: seq<Line>, b: seq<Line>)
    ensures CommandsFor(a + b) == CommandsFor(a) + CommandsFor(b)
  {
    CommandLinesAppend(a, b);
    var l, r := CommandsFor(a + b), CommandsFor(a) + CommandsFor(b);
    assert |l| == |r|;
    forall k | 0 <= k < |l| ensures l[k] == r[k] {
      if k < |CommandsFor(a)| {
        assert r[k] == CommandsFor(a)[k];
      } else {
        assert r[k] == CommandsFor(b)[k - |CommandsFor(a)|];
      }
    }
  }

  /**
   * Because the selection is case-sensitive, every command `parseCommands`
   * builds is a GatorGrader command over the text after `gg: `.
   */
  lemma CommandsAreSpecial(lines: seq<Line>)
    ensures forall k :: 0 <= k < |CommandsFor(lines)| ==>
      IsCommandLine(CommandLines(lines)[k]) &&
      CommandsFor(lines)[k] == Special(Tokenizer.Tokens(CommandLines(lines)[k].content[4..]))
  {
    forall k | 0 <= k < |CommandsFor(lines)|
      ensures IsCommandLine(CommandLines(lines)[k]) &&
        CommandsFor(lines)[k] == Special(Tokenizer.Tokens(CommandLines(lines)[k].content[4..]))
    {
      var x := CommandLines(lines)[k];
      CommandLinesMembers(lines, x);
      SelectedIsSpecial(x.content);
    }
  }

  /** The list after appending: `with` creates the list on first use. */
  function Appended(list: Option<seq<Command>>, cs: seq<Command>): (r: Option<seq<Command>>)
    ensures cs != [] ==> r.Some? && r.value == list.GetOr([]) + cs
    ensures cs == [] ==> r == list
  {
    if cs == [] then list else Some(list.GetOr([]) + cs)
  }

  lemma AppendedTwice(list: Option<seq<Command>>, a: seq<Command>, b: seq<Command>)
    ensures Appended(Appended(list, a), b) == Appended(list, a + b)
  {
    if a == [] {
      assert a + b == b;
    } else if b != [] {
      assert list.GetOr([]) + a + b == list.GetOr([]) + (a + b);
    } else {
      assert a + b == a;
    }
  }

  /** The state `parse` leaves: header settings, commands, and the exception, if one stopped it. */
  datatype ParseOutcome = ParseOutcome(settings: Settings, commands: Option<seq<Command>>, failure: Option<HeaderError>)

  /**
   * `parse` on the lines of the file: filter, header pass, then (unless the
   * header threw) the command pass appending to the existing list.
   */
  function ParseSpec(st: Settings, list: Option<seq<Command>>, raw: seq<string>): ParseOutcome {
    var lines := Filter(raw);
    var h := ParseHeaderSpec(st, lines);
    if h.failure.Some? then ParseOutcome(h.settings, list, h.failure)
    else ParseOutcome(h.settings, Appended(list, CommandsFor(lines)), None)
  }

  /**
   * A parse that succeeds appends, after the old commands, one GatorGrader
   * command per retained `gg: ` line, in ascending line-number order.
   */
  lemma ParseAppendsCommandLines(st: Settings, list: Option<seq<Command>>, raw: seq<string>)
    requires ParseSpec(st, list, raw).failure.None?
    ensures ParseSpec(st, list, raw).commands.GetOr([]) == list.GetOr([]) + CommandsFor(Filter(raw))
    ensures forall k :: 0 <= k < |CommandsFor(Filter(raw))| ==>
      IsCommandLine(CommandLines(Filter(raw))[k]) &&
      CommandsFor(Filter(raw))[k] == Special(Tokenizer.Tokens(CommandLines(Filter(raw))[k].content[4..]))
    ensures WellNumbered(CommandLines(Filter(raw)))
  {
    var lines := Filter(raw);
    var cs := CommandsFor(lines);
    if cs == [] {
      assert list.GetOr([]) + cs == list.GetOr([]);
    }
    CommandsAreSpecial(lines);
    FilterWellNumbered(raw);
    CommandLinesWellNumbered(lines);
  }

  /**
   * Without a marker among the retained lines, parsing leaves both settings as
   * they were; a `---` inside a comment line is dropped before the header pass.
   */
  lemma ParseWithoutMarkerKeepsSettings(st: Settings, list: Option<seq<Command>>, raw: seq<string>)
    requires forall k :: 0 <= k < |raw| && Kept(raw[k]) ==> !IsMarker(raw[k])
    ensures ParseSpec(st, list, raw).settings == st
    ensures ParseSpec(st, list, raw).failure.None?
  {
    var lines := Filter(raw);
    forall k | 0 <= k < |lines| ensures !IsMarker(lines[k].content) {
      KeptMembers(raw, lines[k].content);
      assert lines[k].content in KeptContents(raw);
    }
    NoMarkerKeepsSettings(st, lines);
  }

  /** The descriptions of the commands, in stored order. */
  function Descriptions(cs: seq<Command>, describe: Command -> string): (r: seq<string>)
    ensures |r| == |cs|
    ensures forall k :: 0 <= k < |cs| ==> r[k] == describe(cs[k])
  {
    seq(|cs|, k requires 0 <= k < |cs| => describe(cs[k]))
  }

  /** `toString` after one more `with`: the old text, an arrow, and the new command's description. */
  lemma SummaryAfterWith(cs: seq<Command>, c: Command, describe: Command -> string)
    ensures JoinWith(Descriptions(cs + [c], describe), " -> ") ==
      if cs == [] then describe(c) else JoinWith(Descriptions(cs, describe), " -> ") + " -> " + describe(c)
  {
    var ds := Descriptions(cs, describe);
    assert Descriptions(cs + [c], describe) == ds + [describe(c)];
    if cs != [] {
      JoinWithSnoc(ds, " -> ", describe(c));
    }
  }

  class GatorGradleConfig {
    var breakBuild: bool
    var assignmentName: string
    /** `gradingCommands`: null until the first `with` when the config was made for a file. */
    var gradingCommands: Option<seq<Command>>
    /** The configuration file's path; its contents are passed to `Parse`. */
    var file: string

    /** The two settings, as a value. */
    function CurrentSettings(): Settings
      reads this
    {
      Settings(assignmentName, breakBuild)
    }

    /** The private constructor used by `create(File)`: defaults, no list yet. */
    constructor ForFile(configFile: string)
      ensures CurrentSettings() == Defaults
      ensures gradingCommands.None? && file == configFile
    {
      breakBuild := false;
      assignmentName := "Unnamed Assignment";
      gradingCommands := None;
      file := configFile;
    }

    /**
     * The public constructor: given settings and a copy of the given commands.
     * Java leaves `file` null here, so `parse()` on such a config would throw;
     * the model stores the empty path instead.
     */
    constructor (breakBuild: bool, assignmentName: string, commands: seq<Command>)
      ensures this.breakBuild == breakBuild && this.assignmentName == assignmentName
      ensures gradingCommands == Some(commands)
    {
      this.breakBuild := breakBuild;
      this.assignmentName := assignmentName;
      gradingCommands := Some(commands);
      file := "";
    }

    /** `with`: append one command at the end and return this same config. */
    method With(cmd: Command) returns (self: GatorGradleConfig)
      modifies this
      ensures self == this
      ensures gradingCommands == Some(old(gradingCommands).GetOr([]) + [cmd])
      ensures |gradingCommands.value| == |old(gradingCommands).GetOr([])| + 1
      ensures CurrentSettings() == old(CurrentSettings()) && file == old(file)
    {
      var list := if gradingCommands.None? then [] else gradingCommands.value;
      gradingCommands := Some(list + [cmd]);
      self := this;
    }

    /** `size()`: the number of commands; throws while the list is still null. */
    method Size() returns (r: Result<nat, ConfigError>)
      ensures gradingCommands.Some? ==> r == Ok(|gradingCommands.value|)
      ensures gradingCommands.None? ==> r == Err(NullCommandList)
    {
      match gradingCommands
      case None => r := Err(NullCommandList);
      case Some(cs) => r := Ok(|cs|);
    }

    method ShouldBreakBuild() returns (b: bool)
      ensures b == breakBuild
    {
      b := breakBuild;
    }

    method GetAssignmentName() returns (name: string)
      ensures name == assignmentName
    {
      name := assignmentName;
    }

    /** `toString()`: the descriptions joined by ` -> `, in stored order; `describe` is `getDescription`. */
    method ToString(describe: Command -> string) returns (r: Result<string, ConfigError>)
      ensures gradingCommands.None? ==> r == Err(NullCommandList)
      ensures gradingCommands.Some? ==> r == Ok(JoinWith(Descriptions(gradingCommands.value, describe), " -> "))
    {
      match gradingCommands
      case None => r := Err(NullCommandList);
      case Some(cs) =>
        var parts: seq<string> := [];
        for i := 0 to |cs|
          invariant parts == Descriptions(cs[..i], describe)
        {
          parts := parts + [describe(cs[i])];
        }
        assert cs[..|cs|] == cs;
        r := Ok(JoinWith(parts, " -> "));
    }

    /**
     * `parseHeader`: collect the marker numbers, then apply every line numbered
     * below the last marker that is not a marker itself. A failing line stops
     * the pass, leaving the settings the earlier lines produced.
     */
    method ParseHeader(lines: seq<Line>) returns (failure: Option<HeaderError>)
      modifies this
      ensures CurrentSettings() == ParseHeaderSpec(old(CurrentSettings()), lines).settings
      ensures failure == ParseHeaderSpec(old(CurrentSettings()), lines).failure
      ensures gradingCommands == old(gradingCommands) && file == old(file)
    {
      var markers := CollectMarkers(lines);
      failure := None;
      if |markers| > 0 {
        var endOfHeader := markers[|markers| - 1];
        ghost var st0 := CurrentSettings();
        for i := 0 to |lines|
          invariant ApplyAll(st0, LinesBefore(lines[..i], endOfHeader)) == HeaderRun(CurrentSettings(), None)
          invariant gradingCommands == old(gradingCommands) && file == old(file)
        {
          var line := lines[i];
          if line.number < endOfHeader && !IsMarker(line.content) {
            ghost var cur := CurrentSettings();
            var e := ApplyLine(line.content);
            if e.Some? {
              HeaderFailStep(st0, lines, i, endOfHeader, cur);
              failure := e;
              return;
            }
            HeaderApplyStep(st0, lines, i, endOfHeader, cur);
          } else {
            HeaderSkipStep(st0, lines, i, endOfHeader, CurrentSettings());
          }
        }
        assert lines[..|lines|] == lines;
      }
    }

    /**
     * The `forEach` body of `parseHeader` for one line: split, trim, dispatch on
     * the key. It is the field-updating counterpart of `ApplyEntry`, which
     * states the same step on values and is what the header lemmas are about.
     */
    method ApplyLine(content: string) returns (failure: Option<HeaderError>)
      modifies this
      ensures var r := ApplyEntry(old(CurrentSettings()), content);
        if r.Ok? then failure.None? && CurrentSettings() == r.value
        else failure == Some(r.error) && CurrentSettings() == old(CurrentSettings())
      ensures gradingCommands == old(gradingCommands) && file == old(file)
    {
      var spl := JavaSplit(content, ':');
      if |spl| == 0 {
        return Some(IndexOutOfBounds(0, 0));
      }
      var key := Trim(spl[0]);
      if |spl| == 1 {
        return Some(IndexOutOfBounds(1, 1));
      }
      var val := Trim(spl[1]);
      failure := None;
      if key == "name" {
        assignmentName := val;
      } else if key == "break" {
        if IsTrueLiteral(val) {
          breakBuild := true;
        } else if IsFalseLiteral(val) {
          breakBuild := false;
        } else {
          failure := Some(BadBreakValue(val));
        }
      }
    }

    /** `parseCommands`: every `gg: ` line, in order, becomes a command appended with `with`. */
    method ParseCommands(lines: seq<Line>)
      modifies this
      ensures gradingCommands == Appended(old(gradingCommands), CommandsFor(lines))
      ensures CurrentSettings() == old(CurrentSettings()) && file == old(file)
    {
      for i := 0 to |lines|
        invariant gradingCommands == Appended(old(gradingCommands), CommandsFor(lines[..i]))
        invariant CurrentSettings() == old(CurrentSettings()) && file == old(file)
      {
        assert lines[..i + 1] == lines[..i] + [lines[i]];
        CommandsForAppend(lines[..i], [lines[i]]);
        CommandsForOne(lines[i]);
        if IsCommandLine(lines[i]) {
          SelectedIsSpecial(lines[i].content);
          var cmd := LineToCommand(lines[i].content);
          assert CommandsFor([lines[i]]) == [cmd];
          ghost var before := gradingCommands;
          AppendedTwice(old(gradingCommands), CommandsFor(lines[..i]), [cmd]);
          var _ := With(cmd);
          assert gradingCommands == Appended(before, [cmd]);
          assert CommandsFor(lines[..i + 1]) == CommandsFor(lines[..i]) + [cmd];
        } else {
          assert CommandsFor([lines[i]]) == [];
          assert CommandsFor(lines[..i + 1]) == CommandsFor(lines[..i]);
        }
      }
      assert lines[..|lines|] == lines;
    }

    /**
     * `parse`, given the lines of the configuration file: number the retained
     * lines, run the header pass and, unless it threw, the command pass.
     */
    method Parse(raw: seq<string>) returns (failure: Option<HeaderError>)
      modifies this
      ensures var out := ParseSpec(old(CurrentSettings()), old(gradingCommands), raw);
        CurrentSettings() == out.settings && gradingCommands == out.commands && failure == out.failure
      ensures file == old(file)
    {
      var lines := FilterLines(raw);
      failure := ParseHeader(lines);
      if failure.None? {
        ParseCommands(lines);
      }
    }
  }

  /** The singleton of `create` and `get`, as an explicit context. */
  class Registry {
    var current: GatorGradleConfig?

    constructor ()
      ensures current == null
    {
      current := null;
    }

    /** `create(File)`: a fresh config for the file becomes the current one. */
    method Create(configFile: string) returns (c: GatorGradleConfig)
      modifies this
      ensures fresh(c) && current == c
      ensures c.CurrentSettings() == Defaults && c.gradingCommands.None? && c.file == configFile
    {
      c := new GatorGradleConfig.ForFile(configFile);
      current := c;
    }

    /** `get()`: the current config, or the failure of calling it before `create`. */
    method Get() returns (r: Result<GatorGradleConfig, ConfigError>)
      ensures current != null ==> r == Ok(current)
      ensures current == null ==> r == Err(NotCreated)
    {
      if current != null {
        r := Ok(current);
      } else {
        r := Err(NotCreated);
      }
    }
  }
}
