/**
 * The line filter at the start of `GatorGradleConfig.parse`: blank lines and
 * comment lines are dropped, and every remaining line is numbered by its rank
 * among the remaining lines, from 1.
 */
module LineFilter {
  import opened Text

  /** A retained line: its rank among retained lines and its text, untrimmed. */
  datatype Line = Line(number: int, content: string)

  /** The filter's test: something is left after `trim`, and the line does not start with `#`. */
  predicate Kept(s: string) {
    |Trim(s)| > 0 && !StartsWith(s, "#")
  }

  /** In terms of characters: some character above U+0020, and no `#` in front. */
  lemma KeptIff(s: string)
    ensures Kept(s) <==> (exists k :: 0 <= k < |s| && !IsTrimmable(s[k])) && (s == [] || s[0] != '#')
  {
    if s != [] && s[0] == '#' {
      assert StartsWith(s, "#");
    }
  }

  /** A line whose first character is visible and is no `#` is kept. */
  lemma KeptFirst(s: string)
    requires s != [] && !IsTrimmable(s[0]) && s[0] != '#'
    ensures Kept(s)
  {
    assert s[..1][0] == s[0];
  }

  /** The retained texts, in their original order. */
  function KeptContents(raw: seq<string>): seq<string> {
    if raw == [] then []
    else (if Kept(raw[0]) then [raw[0]] else []) + KeptContents(raw[1..])
  }

  /** The filter drops lines only, and every line it keeps passes the test. */
  lemma {:induction false} KeptContentsPass(raw: seq<string>)
    ensures |KeptContents(raw)| <= |raw|
    ensures forall k :: 0 <= k < |KeptContents(raw)| ==> Kept(KeptContents(raw)[k])
  {
    if raw != [] {
      KeptContentsPass(raw[1..]);
    }
  }

  /** Filtering distributes over concatenation: the filter keeps order and looks at each line alone. */
  lemma {:induction false} KeptAppend(a: seq<string>, b: seq<string>)
    ensures KeptContents(a + b) == KeptContents(a) + KeptContents(b)
  {
    if a != [] {
      var head := if Kept(a[0]) then [a[0]] else [];
      assert (a + b)[0] == a[0] && (a + b)[1..] == a[1..] + b;
      assert KeptContents(a + b) == head + KeptContents(a[1..] + b);
      KeptAppend(a[1..], b);
      assert head + (KeptContents(a[1..]) + KeptContents(b)) == (head + KeptContents(a[1..])) + KeptContents(b);
    } else {
      assert a + b == b;
    }
  }

  /** A line is retained exactly when it occurs in the input and passes the test. */
  lemma {:induction false} KeptMembers(raw: seq<string>, x: string)
    ensures x in KeptContents(raw) <==> x in raw && Kept(x)
  {
    if raw != [] {
      KeptMembers(raw[1..], x);
      assert raw == [raw[0]] + raw[1..];
    }
  }

  /** Input without blank or comment lines passes the filter untouched. */
  lemma {:induction false} KeptAll(raw: seq<string>)
    requires forall k :: 0 <= k < |raw| ==> Kept(raw[k])
    ensures KeptContents(raw) == raw
  {
    if raw != [] {
      KeptAll(raw[1..]);
      assert raw == [raw[0]] + raw[1..];
    }
  }

  /** The numbered lines `parse` hands to the header and command passes. */
  function Filter(raw: seq<string>): (r: seq<Line>)
    ensures |r| == |KeptContents(raw)|
    ensures forall k :: 0 <= k < |r| ==> r[k].number == k + 1 && r[k].content == KeptContents(raw)[k]
  {
    var cs := KeptContents(raw);
    seq(|cs|, k requires 0 <= k < |cs| => Line(k + 1, cs[k]))
  }

  /** The texts of a sequence of lines. */
  function Contents(lines: seq<Line>): (r: seq<string>)
    ensures |r| == |lines|
    ensures forall k :: 0 <= k < |lines| ==> r[k] == lines[k].content
  {
    seq(|lines|, k requires 0 <= k < |lines| => lines[k].content)
  }

  /** Line numbers strictly increase along the sequence. */
  predicate WellNumbered(lines: seq<Line>) {
    forall i, j :: 0 <= i < j < |lines| ==> lines[i].number < lines[j].number
  }

  lemma FilterWellNumbered(raw: seq<string>)
    ensures WellNumbered(Filter(raw))
  {
  }

  /** Filtering the filter's own output gives the same numbered lines again. */
  lemma FilterIdempotent(raw: seq<string>)
    ensures Filter(Contents(Filter(raw))) == Filter(raw)
  {
    var cs := Contents(Filter(raw));
    assert cs == KeptContents(raw);
    KeptContentsPass(raw);
    KeptAll(cs);
  }

  /** One more input line: the filter gains that line, numbered next, exactly when it passes. */
  lemma FilterSnoc(a: seq<string>, x: string)
    ensures Filter(a + [x]) == Filter(a) + (if Kept(x) then [Line(|Filter(a)| + 1, x)] else [])
  {
    KeptAppend(a, [x]);
    assert KeptContents([x]) == if Kept(x) then [x] else [];
    var l, r := Filter(a + [x]), Filter(a) + (if Kept(x) then [Line(|Filter(a)| + 1, x)] else []);
    assert |l| == |r|;
    forall k | 0 <= k < |l| ensures l[k] == r[k] {
      if k < |Filter(a)| {
        assert r[k] == Filter(a)[k];
      }
    }
  }

  /** The numbering loop of `parse`, with its running counter. */
  method FilterLines(raw: seq<string>) returns (lines: seq<Line>)
    ensures lines == Filter(raw)
  {
    lines := [];
    var lineNumber := 0;
    for i := 0 to |raw|
      invariant lines == Filter(raw[..i])
      invariant lineNumber == |lines|
    {
      assert raw[..i + 1] == raw[..i] + [raw[i]];
      FilterSnoc(raw[..i], raw[i]);
      if Kept(raw[i]) {
        lineNumber := lineNumber + 1;
        lines := lines + [Line(lineNumber, raw[i])];
      }
    }
    assert raw[..|raw|] == raw;
  }
}
