/** Whole configuration files, and single header lines, run through the parse. */
module ConfigExamples {
  import opened Wrappers
  import opened Text
  import opened LineFilter
  import opened Commands
  import opened Header
  import opened Config

  /** A line without a dash cannot contain `---`. */
  lemma NoDashNoMarker(s: string)
    requires '-' !in s
    ensures !IsMarker(s)
  {
    forall i: nat | i <= |s| ensures !OccursAt(s, "---", i) {
      if i + 3 <= |s| {
        assert s[i] == s[i..i + 3][0];
      }
    }
  }

  /** Every line here is retained, so numbering simply counts them. */
  lemma FilterOfSample(raw: seq<string>)
    requires raw == ["name: X", "break: true", "---", "gg: check something"]
    ensures Filter(raw) == [Line(1, raw[0]), Line(2, raw[1]), Line(3, raw[2]), Line(4, raw[3])]
  {
    KeptFirst(raw[0]);
    KeptFirst(raw[1]);
    KeptFirst(raw[2]);
    KeptFirst(raw[3]);
    KeptAll(raw);
  }

  /** The sample's header: the two lines before the marker set both settings. */
  lemma SampleHeader(lines: seq<Line>)
    requires lines == [Line(1, "name: X"), Line(2, "break: true"), Line(3, "---"), Line(4, "gg: check something")]
    ensures ParseHeaderSpec(Defaults, lines) == HeaderRun(Settings("X", true), None)
  {
    var pre := [lines[0], lines[1]];
    assert lines == pre + [lines[2]] + [lines[3]];
    SampleMarkers();
    ParseHeaderBeforeLastMarker(Defaults, pre, lines[2], [lines[3]]);
    NonMarkersOfPlain(pre);
    SampleEntries(pre);
  }

  lemma SampleMarkers()
    ensures IsMarker("---")
    ensures !IsMarker("name: X") && !IsMarker("break: true") && !IsMarker("gg: check something")
  {
    assert OccursAt("---", "---", 0);
    NoDashNoMarker("name: X");
    NoDashNoMarker("break: true");
    NoDashNoMarker("gg: check something");
  }

  lemma TrimName()
    ensures Trim("name") == "name" && Trim(" X") == "X"
  {
    TrimOfTrimmed("name");
    TrimIs(" X", 1, 2);
  }

  lemma TrimTrue()
    ensures Trim("break") == "break" && Trim(" true") == "true"
  {
    TrimOfTrimmed("break");
    TrimIs(" true", 1, 5);
  }

  lemma TrimMaybe()
    ensures Trim("break") == "break" && Trim(" maybe") == "maybe"
  {
    TrimOfTrimmed("break");
    TrimIs(" maybe", 1, 6);
  }

  lemma NameLine()
    ensures ApplyEntry(Defaults, "name: X") == Ok(Settings("X", false))
  {
    assert "name: X" == "name" + ":" + " X" + "";
    NameEntry(Defaults, "name", " X", "");
    TrimName();
  }

  lemma BreakLine(st: Settings)
    ensures ApplyEntry(st, "break: true") == Ok(st.(breakBuild := true))
  {
    assert "break: true" == "break" + ":" + " true" + "";
    BreakEntry(st, "break", " true", "");
    TrimTrue();
    assert IsTrueLiteral("true");
  }

  lemma SampleEntries(entries: seq<Line>)
    requires entries == [Line(1, "name: X"), Line(2, "break: true")]
    ensures ApplyAll(Defaults, entries) == HeaderRun(Settings("X", true), None)
  {
    NameLine();
    BreakLine(Settings("X", false));
    ApplyTwo(Defaults, entries[0], entries[1], Settings("X", false), Settings("X", true));
  }

  /** Two header lines that both apply, one after the other. */
  lemma ApplyTwo(st: Settings, l1: Line, l2: Line, st1: Settings, st2: Settings)
    requires ApplyEntry(st, l1.content) == Ok(st1) && ApplyEntry(st1, l2.content) == Ok(st2)
    ensures ApplyAll(st, [l1, l2]) == HeaderRun(st2, None)
  {
    var a, b := [l1, l2], [l2];
    assert a[0] == l1 && a[1..] == b;
    assert ApplyAll(st, a) == ApplyAll(st1, b);
    assert b[0] == l2 && b[1..] == [];
    assert ApplyAll(st1, b) == ApplyAll(st2, []);
  }

  /** The sample's one `gg: ` line is its one command. */
  lemma SampleCommands(lines: seq<Line>)
    requires lines == [Line(1, "name: X"), Line(2, "break: true"), Line(3, "---"), Line(4, "gg: check something")]
    ensures CommandsFor(lines) == [Special(["check", "something"])]
  {
    forall k | 0 <= k < 3 ensures !IsCommandLine(lines[k]) {
      assert |lines[k].content| < 4 || lines[k].content[..4][0] != 'g';
    }
    assert lines[3].content[..4] == "gg: ";
    ClassifySpecialExample();
    CommandsForSingle(lines, 3);
  }

  /** `name: X`, `break: true` and a marker, then one command line. */
  lemma ParseSample(raw: seq<string>, cs: seq<Command>)
    requires raw == ["name: X", "break: true", "---", "gg: check something"]
    requires cs == [Special(["check", "something"])]
    ensures ParseSpec(Defaults, None, raw) == ParseOutcome(Settings("X", true), Some(cs), None)
  {
    SampleFilteredHeader(raw);
    SampleFilteredCommands(raw);
    ParseSpecOfParts(Defaults, None, raw, Settings("X", true), cs);
    AppendedToNone(cs);
  }

  /** Commands appended to a missing list become the whole list. */
  lemma AppendedToNone(cs: seq<Command>)
    requires cs != []
    ensures Appended(None, cs) == Some(cs)
  {
    assert [] + cs == cs;
  }

  lemma SampleFilteredHeader(raw: seq<string>)
    requires raw == ["name: X", "break: true", "---", "gg: check something"]
    ensures ParseHeaderSpec(Defaults, Filter(raw)) == HeaderRun(Settings("X", true), None)
  {
    FilterOfSample(raw);
    SampleHeader(Filter(raw));
  }

  lemma SampleFilteredCommands(raw: seq<string>)
    requires raw == ["name: X", "break: true", "---", "gg: check something"]
    ensures CommandsFor(Filter(raw)) == [Special(["check", "something"])]
  {
    FilterOfSample(raw);
    SampleCommands(Filter(raw));
  }

  /** A successful parse from what its header and command passes give. */
  lemma ParseSpecOfParts(st: Settings, list: Option<seq<Command>>, raw: seq<string>, st': Settings, cs: seq<Command>)
    requires ParseHeaderSpec(st, Filter(raw)) == HeaderRun(st', None)
    requires CommandsFor(Filter(raw)) == cs
    ensures ParseSpec(st, list, raw) == ParseOutcome(st', Appended(list, cs), None)
  {
  }

  /** `break: maybe` in the header stops the parse, naming the value. */
  lemma ParseBadBreak(raw: seq<string>)
    requires raw == ["break: maybe", "---"]
    ensures ParseSpec(Defaults, None, raw).failure == Some(BadBreakValue("maybe"))
  {
    KeptFirst(raw[0]);
    KeptFirst(raw[1]);
    KeptAll(raw);
    BadBreakHeader(Filter(raw));
  }

  lemma BadBreakLine()
    ensures ApplyEntry(Defaults, "break: maybe") == Err(BadBreakValue("maybe"))
  {
    assert "break: maybe" == "break" + ":" + " maybe" + "";
    BreakEntry(Defaults, "break", " maybe", "");
    TrimMaybe();
    assert !IsTrueLiteral("maybe") && !IsFalseLiteral("maybe");
  }

  /** `name::X`: the value field is the empty text between the two colons, so the name becomes empty. */
  lemma EmptyNameLine()
    ensures ApplyEntry(Defaults, "name::X") == Ok(Settings("", false))
  {
    assert "name::X" == "name" + ":" + "" + ":X";
    assert (":X")[1] != ':';
    NameEntry(Defaults, "name", "", ":X");
    TrimOfTrimmed("name");
  }

  /** `break::true`: the empty value is not a `break` literal, so the line fails naming it. */
  lemma EmptyBreakLine()
    ensures ApplyEntry(Defaults, "break::true") == Err(BadBreakValue(""))
  {
    assert "break::true" == "break" + ":" + "" + ":true";
    assert (":true")[1] != ':';
    BreakEntry(Defaults, "break", "", ":true");
    TrimOfTrimmed("break");
  }

  /** A `---` that only occurs in a comment line does not end a header. */
  lemma CommentedMarker(st: Settings, list: Option<seq<Command>>)
    ensures ParseSpec(st, list, ["# ---", "name: X"]).settings == st
  {
    var raw := ["# ---", "name: X"];
    assert !Kept(raw[0]);
    assert !IsMarker(raw[1]) by { NoDashNoMarker(raw[1]); }
    ParseWithoutMarkerKeepsSettings(st, list, raw);
  }

  lemma BadBreakHeader(lines: seq<Line>)
    requires lines == [Line(1, "break: maybe"), Line(2, "---")]
    ensures ParseHeaderSpec(Defaults, lines).failure == Some(BadBreakValue("maybe"))
  {
    assert lines == [lines[0]] + [lines[1]] + [];
    assert IsMarker("---") by { assert OccursAt("---", "---", 0); }
    NoDashNoMarker("break: maybe");
    ParseHeaderBeforeLastMarker(Defaults, [lines[0]], lines[1], []);
    NonMarkersOfPlain([lines[0]]);
    BadBreakLine();
  }
}
