/**
 * The header pass of `GatorGradleConfig.parse` (`parseHeader`): find the last
 * line containing `---`, and read `key: value` from every line numbered below
 * it that is not itself a marker. `name` sets the assignment name, `break` the
 * build-break flag; other keys are reported and otherwise ignored.
 */
module Header {
  import opened Wrappers
  import opened Text
  import opened LineFilter

  /** The two settings the header can change. */
  datatype Settings = Settings(assignmentName: string, breakBuild: bool)

  /** The field initialisers of `GatorGradleConfig`. */
  const Defaults := Settings("Unnamed Assignment", false)

  /**
   * Why `parseHeader` throws: reading `spl[index]` past the end of the
   * split line (an `ArrayIndexOutOfBoundsException`), or a `break` value that
   * is no boolean (the `RuntimeException` of the `break` case).
   */
  datatype HeaderError = IndexOutOfBounds(index: nat, length: nat) | BadBreakValue(value: string)

  /** The exception text; for an index the model keeps only the two numbers. */
  function Message(e: HeaderError): string {
    match e
    case IndexOutOfBounds(_, _) => "Index out of bounds"
    case BadBreakValue(v) => "Failed to parse '" + v + "' to 'break' value"
  }

  /** The message of a bad `break` value quotes that value. */
  lemma MessageNamesValue(v: string)
    ensures Contains(Message(BadBreakValue(v)), v)
  {
    var m := Message(BadBreakValue(v));
    assert OccursAt(m, v, 17);
  }

  /** A marker line: `content.contains("---")`. */
  predicate IsMarker(content: string) {
    Contains(content, "---")
  }

  /** `markers`: the numbers of the marker lines, in line order. */
  function MarkerNumbers(lines: seq<Line>): seq<int> {
    if lines == [] then []
    else (if IsMarker(lines[0].content) then [lines[0].number] else []) + MarkerNumbers(lines[1..])
  }

  /** There are no marker numbers exactly when no line is a marker. */
  lemma {:induction false} NoMarkerNumbers(lines: seq<Line>)
    ensures MarkerNumbers(lines) == [] <==> forall k :: 0 <= k < |lines| ==> !IsMarker(lines[k].content)
  {
    if lines != [] {
      NoMarkerNumbers(lines[1..]);
      if !IsMarker(lines[0].content) && MarkerNumbers(lines) == [] {
        forall k | 0 <= k < |lines| ensures !IsMarker(lines[k].content) {
          if k > 0 {
            assert lines[k] == lines[1..][k - 1];
          }
        }
      }
    }
  }

  lemma {:induction false} MarkerNumbersAppend(a: seq<Line>, b: seq<Line>)
    ensures MarkerNumbers(a + b) == MarkerNumbers(a) + MarkerNumbers(b)
  {
    if a == [] {
      assert a + b == b;
    } else {
      var head := if IsMarker(a[0].content) then [a[0].number] else [];
      assert (a + b)[0] == a[0] && (a + b)[1..] == a[1..] + b;
      assert MarkerNumbers(a + b) == head + MarkerNumbers(a[1..] + b);
      MarkerNumbersAppend(a[1..], b);
      assert head + (MarkerNumbers(a[1..]) + MarkerNumbers(b)) == (head + MarkerNumbers(a[1..])) + MarkerNumbers(b);
    }
  }

  /** The first loop of `parseHeader`: collect the numbers of the marker lines. */
  method CollectMarkers(lines: seq<Line>) returns (markers: seq<int>)
    ensures markers == MarkerNumbers(lines)
  {
    markers := [];
    for i := 0 to |lines|
      invariant markers == MarkerNumbers(lines[..i])
    {
      assert lines[..i + 1] == lines[..i] + [lines[i]];
      MarkerNumbersAppend(lines[..i], [lines[i]]);
      if IsMarker(lines[i].content) {
        markers := markers + [lines[i].number];
      }
    }
    assert lines[..|lines|] == lines;
  }

  /** A line the header pass reads once the end of the header is known. */
  predicate ReadsAsEntry(line: Line, endOfHeader: int) {
    line.number < endOfHeader && !IsMarker(line.content)
  }

  /** The stream filter of `parseHeader`: lines numbered below `endOfHeader` that are not markers. */
  function LinesBefore(lines: seq<Line>, endOfHeader: int): seq<Line> {
    if lines == [] then []
    else (if ReadsAsEntry(lines[0], endOfHeader) then [lines[0]] else []) + LinesBefore(lines[1..], endOfHeader)
  }

  lemma {:induction false} LinesBeforeAppend(a: seq<Line>, b: seq<Line>, endOfHeader: int)
    ensures LinesBefore(a + b, endOfHeader) == LinesBefore(a, endOfHeader) + LinesBefore(b, endOfHeader)
  {
    if a == [] {
      assert a + b == b;
    } else {
      var head := if ReadsAsEntry(a[0], endOfHeader) then [a[0]] else [];
      assert (a + b)[0] == a[0] && (a + b)[1..] == a[1..] + b;
      assert LinesBefore(a + b, endOfHeader) == head + LinesBefore(a[1..] + b, endOfHeader);
      LinesBeforeAppend(a[1..], b, endOfHeader);
      assert head + (LinesBefore(a[1..], endOfHeader) + LinesBefore(b, endOfHeader))
          == (head + LinesBefore(a[1..], endOfHeader)) + LinesBefore(b, endOfHeader);
    }
  }

  /** A line is read exactly when it occurs and is numbered below the end of the header, and is no marker. */
  lemma {:induction false} LinesBeforeMembers(lines: seq<Line>, endOfHeader: int, x: Line)
    ensures x in LinesBefore(lines, endOfHeader) <==> x in lines && ReadsAsEntry(x, endOfHeader)
  {
    if lines != [] {
      LinesBeforeMembers(lines[1..], endOfHeader, x);
      assert lines == [lines[0]] + lines[1..];
    }
  }

  /** The lines read as `key: value`: none without a marker, else those before the last marker. */
  function HeaderLines(lines: seq<Line>): seq<Line> {
    var markers := MarkerNumbers(lines);
    if |markers| == 0 then [] else LinesBefore(lines, markers[|markers| - 1])
  }

  /** The lines that are not markers, in order. */
  function NonMarkers(lines: seq<Line>): seq<Line> {
    if lines == [] then []
    else (if IsMarker(lines[0].content) then [] else [lines[0]]) + NonMarkers(lines[1..])
  }

  /** A line is kept exactly when it occurs and contains no `---`. */
  lemma {:induction false} NonMarkersMembers(lines: seq<Line>, x: Line)
    ensures x in NonMarkers(lines) <==> x in lines && !IsMarker(x.content)
  {
    if lines != [] {
      NonMarkersMembers(lines[1..], x);
      assert lines == [lines[0]] + lines[1..];
    }
  }

  /** Lines without markers are all kept. */
  lemma {:induction false} NonMarkersOfPlain(lines: seq<Line>)
    requires forall k :: 0 <= k < |lines| ==> !IsMarker(lines[k].content)
    ensures NonMarkers(lines) == lines
  {
    if lines != [] {
      NonMarkersOfPlain(lines[1..]);
      assert lines == [lines[0]] + lines[1..];
    }
  }

  /** When every line is numbered below the bound, the filter drops only markers. */
  lemma {:induction false} LinesBeforeAllBelow(lines: seq<Line>, endOfHeader: int)
    requires forall k :: 0 <= k < |lines| ==> lines[k].number < endOfHeader
    ensures LinesBefore(lines, endOfHeader) == NonMarkers(lines)
  {
    if lines != [] {
      LinesBeforeAllBelow(lines[1..], endOfHeader);
    }
  }

  /** When no line is numbered below the bound, the filter keeps nothing. */
  lemma {:induction false} LinesBeforeNoneBelow(lines: seq<Line>, endOfHeader: int)
    requires forall k :: 0 <= k < |lines| ==> lines[k].number >= endOfHeader
    ensures LinesBefore(lines, endOfHeader) == []
  {
    if lines != [] {
      LinesBeforeNoneBelow(lines[1..], endOfHeader);
    }
  }

  /**
   * With the last marker m, the header is exactly the non-marker lines before m:
   * whatever follows m never reaches the settings.
   */
  lemma HeaderIsBeforeLastMarker(pre: seq<Line>, m: Line, post: seq<Line>)
    requires WellNumbered(pre + [m] + post)
    requires IsMarker(m.content)
    requires forall k :: 0 <= k < |post| ==> !IsMarker(post[k].content)
    ensures HeaderLines(pre + [m] + post) == NonMarkers(pre)
  {
    LastMarkerNumber(pre, m, post);
    var lines := pre + [m] + post;
    forall k | 0 <= k < |pre| ensures pre[k].number < m.number {
      assert lines[k] == pre[k] && lines[|pre|] == m;
    }
    forall k | 0 <= k < |post| ensures post[k].number >= m.number {
      assert lines[|pre| + 1 + k] == post[k] && lines[|pre|] == m;
    }
    SplitAtMarker(pre, m, post);
  }

  /** The last marker number is the number of the last marker line. */
  lemma LastMarkerNumber(pre: seq<Line>, m: Line, post: seq<Line>)
    requires IsMarker(m.content)
    requires forall k :: 0 <= k < |post| ==> !IsMarker(post[k].content)
    ensures var ms := MarkerNumbers(pre + [m] + post); |ms| > 0 && ms[|ms| - 1] == m.number
  {
    NoMarkerNumbers(post);
    MarkerNumbersAppend(pre + [m], post);
    MarkerNumbersAppend(pre, [m]);
    assert MarkerNumbers([m]) == [m.number];
  }

  /** Below the marker's number only the lines before it are read, and of those only the non-markers. */
  lemma SplitAtMarker(pre: seq<Line>, m: Line, post: seq<Line>)
    requires forall k :: 0 <= k < |pre| ==> pre[k].number < m.number
    requires forall k :: 0 <= k < |post| ==> post[k].number >= m.number
    ensures LinesBefore(pre + [m] + post, m.number) == NonMarkers(pre)
  {
    LinesBeforeAppend(pre + [m], post, m.number);
    LinesBeforeAppend(pre, [m], m.number);
    LinesBeforeAllBelow(pre, m.number);
    assert LinesBefore([m], m.number) == [];
    LinesBeforeNoneBelow(post, m.number);
  }

  /** The key of a header line, when the line has a value field (`spl[0].trim()`). */
  function EntryKey(content: string): Option<string> {
    var spl := JavaSplit(content, ':');
    if |spl| >= 2 then Some(Trim(spl[0])) else None
  }

  /** The value of a header line (`spl[1].trim()`): the trimmed text between its first and second colon. */
  function EntryValue(content: string): Option<string> {
    var spl := JavaSplit(content, ':');
    if |spl| >= 2 then Some(Trim(spl[1])) else None
  }

  /** The `break` literals, matched letter by letter in either case. */
  predicate IsTrueLiteral(v: string) {
    MatchesIgnoringCase(v, "true")
  }

  predicate IsFalseLiteral(v: string) {
    MatchesIgnoringCase(v, "false")
  }

  /**
   * The body of the header `forEach` for one line: split on `:`, take key and
   * value, and dispatch on the key.
   */
  function ApplyEntry(st: Settings, content: string): (r: Result<Settings, HeaderError>)
    ensures r.Err? <==>
      EntryKey(content).None? ||
      (EntryKey(content) == Some("break") && !IsTrueLiteral(EntryValue(content).value) && !IsFalseLiteral(EntryValue(content).value))
    ensures r.Ok? && EntryKey(content) != Some("name") ==> r.value.assignmentName == st.assignmentName
    ensures r.Ok? && EntryKey(content) != Some("break") ==> r.value.breakBuild == st.breakBuild
    ensures r.Ok? && EntryKey(content) == Some("name") ==> r.value.assignmentName == EntryValue(content).value
  {
    var spl := JavaSplit(content, ':');
    if |spl| == 0 then Err(IndexOutOfBounds(0, 0))
    else
      var key := Trim(spl[0]);
      if |spl| == 1 then Err(IndexOutOfBounds(1, 1))
      else
        var val := Trim(spl[1]);
        if key == "name" then Ok(st.(assignmentName := val))
        else if key == "break" then
          if IsTrueLiteral(val) then Ok(st.(breakBuild := true))
          else if IsFalseLiteral(val) then Ok(st.(breakBuild := false))
          else Err(BadBreakValue(val))
        else Ok(st)
  }

  /**
   * Fields 0 and 1 of a header line `k:v...`: the key, and the text up to the
   * next colon, which may be empty (`name::X`) when something other than colons
   * follows.
   */
  lemma EntryFields(k: string, v: string, rest: string)
    requires ':' !in k && ':' !in v
    requires rest == [] || rest[0] == ':'
    requires v != [] || exists i :: 0 <= i < |rest| && rest[i] != ':'
    ensures var fs := JavaSplit(k + ":" + v + rest, ':');
      |fs| >= 2 && fs[0] == k && fs[1] == v
  {
    if v != [] {
      KeyValueFields(k, ':', v, rest);
    } else {
      var i :| 0 <= i < |rest| && rest[i] != ':';
      assert k + ":" + v + rest == k + [':'] + rest;
      EmptyValueFields(k, ':', rest, i);
    }
  }

  /**
   * `name: v` sets the assignment name to the trimmed text up to the next
   * colon; for `name::X` that text is empty and so is the name.
   */
  lemma NameEntry(st: Settings, k: string, v: string, rest: string)
    requires ':' !in k && ':' !in v
    requires rest == [] || rest[0] == ':'
    requires v != [] || exists i :: 0 <= i < |rest| && rest[i] != ':'
    requires Trim(k) == "name"
    ensures ApplyEntry(st, k + ":" + v + rest) == Ok(st.(assignmentName := Trim(v)))
  {
    EntryFields(k, v, rest);
  }

  /**
   * `break: v` sets the flag for `true`/`false` in any case, and fails naming
   * any other value (the empty one of `break::true` included).
   */
  lemma BreakEntry(st: Settings, k: string, v: string, rest: string)
    requires ':' !in k && ':' !in v
    requires rest == [] || rest[0] == ':'
    requires v != [] || exists i :: 0 <= i < |rest| && rest[i] != ':'
    requires Trim(k) == "break"
    ensures IsTrueLiteral(Trim(v)) ==> ApplyEntry(st, k + ":" + v + rest) == Ok(st.(breakBuild := true))
    ensures IsFalseLiteral(Trim(v)) ==> ApplyEntry(st, k + ":" + v + rest) == Ok(st.(breakBuild := false))
    ensures !IsTrueLiteral(Trim(v)) && !IsFalseLiteral(Trim(v)) ==>
      ApplyEntry(st, k + ":" + v + rest) == Err(BadBreakValue(Trim(v)))
  {
    EntryFields(k, v, rest);
  }

  /** Any other key changes neither setting. */
  lemma UnknownKeyEntry(st: Settings, k: string, v: string, rest: string)
    requires ':' !in k && ':' !in v
    requires rest == [] || rest[0] == ':'
    requires v != [] || exists i :: 0 <= i < |rest| && rest[i] != ':'
    requires Trim(k) != "name" && Trim(k) != "break"
    ensures ApplyEntry(st, k + ":" + v + rest) == Ok(st)
  {
    EntryFields(k, v, rest);
  }

  /** A header line with no colon, or only colons after the key, fails on `spl[1]` (or `spl[0]`). */
  lemma MissingValueEntry(st: Settings, k: string, tail: string)
    requires ':' !in k
    requires forall i :: 0 <= i < |tail| ==> tail[i] == ':'
    ensures ApplyEntry(st, k + tail).Err? && ApplyEntry(st, k + tail).error.IndexOutOfBounds?
  {
    NoValueField(k, ':', tail);
  }

  /** How far the header pass got: the settings reached, and the exception that stopped it, if any. */
  datatype HeaderRun = HeaderRun(settings: Settings, failure: Option<HeaderError>)

  /** The header lines applied in order; the first failing line stops the pass with the settings reached so far. */
  function ApplyAll(st: Settings, entries: seq<Line>): HeaderRun
    decreases |entries|
  {
    if entries == [] then HeaderRun(st, None)
    else
      match ApplyEntry(st, entries[0].content)
      case Err(e) => HeaderRun(st, Some(e))
      case Ok(st') => ApplyAll(st', entries[1..])
  }

  /** Applying a + b is applying a, then, unless a failed, b from where a stopped. */
  lemma {:induction false} ApplyAllAppend(st: Settings, a: seq<Line>, b: seq<Line>)
    ensures ApplyAll(st, a + b) ==
      (var r := ApplyAll(st, a); if r.failure.Some? then r else ApplyAll(r.settings, b))
    decreases |a|
  {
    if a == [] {
      assert a + b == b;
    } else {
      assert (a + b)[0] == a[0] && (a + b)[1..] == a[1..] + b;
      match ApplyEntry(st, a[0].content)
      case Err(e) =>
      case Ok(st') => ApplyAllAppend(st', a[1..], b);
    }
  }

  /** A successful run over lines without key `name` keeps the assignment name. */
  lemma {:induction false} ApplyAllKeepsName(st: Settings, entries: seq<Line>)
    requires ApplyAll(st, entries).failure.None?
    requires forall k :: 0 <= k < |entries| ==> EntryKey(entries[k].content) != Some("name")
    ensures ApplyAll(st, entries).settings.assignmentName == st.assignmentName
    decreases |entries|
  {
    if entries != [] {
      ApplyAllKeepsName(ApplyEntry(st, entries[0].content).value, entries[1..]);
    }
  }

  /** A successful run over lines without key `break` keeps the build-break flag. */
  lemma {:induction false} ApplyAllKeepsBreak(st: Settings, entries: seq<Line>)
    requires ApplyAll(st, entries).failure.None?
    requires forall k :: 0 <= k < |entries| ==> EntryKey(entries[k].content) != Some("break")
    ensures ApplyAll(st, entries).settings.breakBuild == st.breakBuild
    decreases |entries|
  {
    if entries != [] {
      ApplyAllKeepsBreak(ApplyEntry(st, entries[0].content).value, entries[1..]);
    }
  }

  /** Header lines apply in order: the last `name` line decides the assignment name. */
  lemma LastNameWins(st: Settings, pre: seq<Line>, l: Line, post: seq<Line>)
    requires ApplyAll(st, pre + [l] + post).failure.None?
    requires EntryKey(l.content) == Some("name")
    requires forall k :: 0 <= k < |post| ==> EntryKey(post[k].content) != Some("name")
    ensures ApplyAll(st, pre + [l] + post).settings.assignmentName == EntryValue(l.content).value
  {
    ApplyAllAppend(st, pre + [l], post);
    ApplyAllAppend(st, pre, [l]);
    var mid := ApplyAll(st, pre + [l]);
    ApplyAllKeepsName(mid.settings, post);
  }

  /** Header lines apply in order: the last `break` line decides the build-break flag. */
  lemma LastBreakWins(st: Settings, pre: seq<Line>, l: Line, post: seq<Line>)
    requires ApplyAll(st, pre + [l] + post).failure.None?
    requires EntryKey(l.content) == Some("break")
    requires forall k :: 0 <= k < |post| ==> EntryKey(post[k].content) != Some("break")
    ensures ApplyAll(st, pre + [l] + post).settings.breakBuild == IsTrueLiteral(EntryValue(l.content).value)
  {
    ApplyAllAppend(st, pre + [l], post);
    ApplyAllAppend(st, pre, [l]);
    var mid := ApplyAll(st, pre + [l]);
    ApplyAllKeepsBreak(mid.settings, post);
  }

  /** The header pass line by line: a line that is not read leaves the run as it was. */
  lemma HeaderSkipStep(st: Settings, lines: seq<Line>, i: nat, endOfHeader: int, cur: Settings)
    requires i < |lines| && !ReadsAsEntry(lines[i], endOfHeader)
    requires ApplyAll(st, LinesBefore(lines[..i], endOfHeader)) == HeaderRun(cur, None)
    ensures ApplyAll(st, LinesBefore(lines[..i + 1], endOfHeader)) == HeaderRun(cur, None)
  {
    PrefixLines(lines, i, endOfHeader);
    assert LinesBefore([lines[i]], endOfHeader) == [];
    ApplyAllAppend(st, LinesBefore(lines[..i], endOfHeader), []);
  }

  /** A header line that applies moves the run on to the settings it produces. */
  lemma HeaderApplyStep(st: Settings, lines: seq<Line>, i: nat, endOfHeader: int, cur: Settings)
    requires i < |lines| && ReadsAsEntry(lines[i], endOfHeader) && ApplyEntry(cur, lines[i].content).Ok?
    requires ApplyAll(st, LinesBefore(lines[..i], endOfHeader)) == HeaderRun(cur, None)
    ensures ApplyAll(st, LinesBefore(lines[..i + 1], endOfHeader)) == HeaderRun(ApplyEntry(cur, lines[i].content).value, None)
  {
    PrefixLines(lines, i, endOfHeader);
    assert LinesBefore([lines[i]], endOfHeader) == [lines[i]];
    ApplyOne(cur, lines[i]);
    ApplyAllAppend(st, LinesBefore(lines[..i], endOfHeader), [lines[i]]);
  }

  /** A header line that fails ends the whole pass, with the settings reached before it. */
  lemma HeaderFailStep(st: Settings, lines: seq<Line>, i: nat, endOfHeader: int, cur: Settings)
    requires i < |lines| && ReadsAsEntry(lines[i], endOfHeader) && ApplyEntry(cur, lines[i].content).Err?
    requires ApplyAll(st, LinesBefore(lines[..i], endOfHeader)) == HeaderRun(cur, None)
    ensures ApplyAll(st, LinesBefore(lines, endOfHeader)) == HeaderRun(cur, Some(ApplyEntry(cur, lines[i].content).error))
  {
    PrefixLines(lines, i, endOfHeader);
    assert LinesBefore([lines[i]], endOfHeader) == [lines[i]];
    ApplyOne(cur, lines[i]);
    ApplyAllAppend(st, LinesBefore(lines[..i], endOfHeader), [lines[i]]);
    FailureStays(st, lines, i + 1, endOfHeader);
  }

  /** Once the lines read so far have failed, the lines after them change nothing. */
  lemma FailureStays(st: Settings, lines: seq<Line>, j: nat, endOfHeader: int)
    requires j <= |lines| && ApplyAll(st, LinesBefore(lines[..j], endOfHeader)).failure.Some?
    ensures ApplyAll(st, LinesBefore(lines, endOfHeader)) == ApplyAll(st, LinesBefore(lines[..j], endOfHeader))
  {
    assert lines == lines[..j] + lines[j..];
    LinesBeforeAppend(lines[..j], lines[j..], endOfHeader);
    ApplyAllAppend(st, LinesBefore(lines[..j], endOfHeader), LinesBefore(lines[j..], endOfHeader));
  }

  lemma PrefixLines(lines: seq<Line>, i: nat, endOfHeader: int)
    requires i < |lines|
    ensures LinesBefore(lines[..i + 1], endOfHeader) == LinesBefore(lines[..i], endOfHeader) + LinesBefore([lines[i]], endOfHeader)
  {
    assert lines[..i + 1] == lines[..i] + [lines[i]];
    LinesBeforeAppend(lines[..i], [lines[i]], endOfHeader);
  }

  lemma ApplyOne(st: Settings, line: Line)
    ensures ApplyEntry(st, line.content).Ok? ==> ApplyAll(st, [line]) == HeaderRun(ApplyEntry(st, line.content).value, None)
    ensures ApplyEntry(st, line.content).Err? ==> ApplyAll(st, [line]) == HeaderRun(st, Some(ApplyEntry(st, line.content).error))
  {
    assert [line][1..] == [];
  }


  /** What `parseHeader` does to the settings. */
  function ParseHeaderSpec(st: Settings, lines: seq<Line>): HeaderRun {
    ApplyAll(st, HeaderLines(lines))
  }

  /** Without a marker there is no header: both settings keep their prior values. */
  lemma NoMarkerKeepsSettings(st: Settings, lines: seq<Line>)
    requires forall k :: 0 <= k < |lines| ==> !IsMarker(lines[k].content)
    ensures ParseHeaderSpec(st, lines) == HeaderRun(st, None)
  {
    NoMarkerNumbers(lines);
  }

  /** With markers, only the non-marker lines before the last one are read. */
  lemma ParseHeaderBeforeLastMarker(st: Settings, pre: seq<Line>, m: Line, post: seq<Line>)
    requires WellNumbered(pre + [m] + post)
    requires IsMarker(m.content)
    requires forall k :: 0 <= k < |post| ==> !IsMarker(post[k].content)
    ensures ParseHeaderSpec(st, pre + [m] + post) == ApplyAll(st, NonMarkers(pre))
  {
    HeaderIsBeforeLastMarker(pre, m, post);
  }
}
