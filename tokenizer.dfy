/**
 * The argument tokenizer of `lineToCommand`: a hand-written scanner for the
 * regular expression `([^"]\S*|".+?")\s*` driven the way `Matcher.find()`
 * drives it, each `group(1)` then stripped of every `"`.
 *
 * At a position p the pattern matches when
 *  - s[p] is not `"` (it may be whitespace): the group is s[p] followed by
 *    the longest run of non-whitespace; or
 *  - s[p] is `"`: the group runs to the first `"` after at least one more
 *    character, none of them a line terminator (`.+?` is lazy);
 * and the match then swallows the whitespace that follows. `find()` tries
 * p, p + 1, ... from the end of the previous match and takes the first
 * position where the pattern matches; a lone opening quote is skipped.
 */
module Tokenizer {
  import opened Wrappers
  import opened Text

  /** One successful `find()`: the match spans [start, end), `group(1)` spans [start, groupEnd). */
  datatype Match = Match(start: nat, groupEnd: nat, end: nat)

  /** `\S*` from i: the end of the run of non-whitespace starting at i. */
  function NonSpaceEnd(s: string, i: nat): (r: nat)
    requires i <= |s|
    ensures i <= r <= |s|
    decreases |s| - i
  {
    if i == |s| || IsSpace(s[i]) then i else NonSpaceEnd(s, i + 1)
  }

  /** The run `\S*` stops at the first whitespace character or at the end. */
  lemma {:induction false} NonSpaceEndIsRun(s: string, i: nat)
    requires i <= |s|
    ensures forall k :: i <= k < NonSpaceEnd(s, i) ==> !IsSpace(s[k])
    ensures NonSpaceEnd(s, i) == |s| || IsSpace(s[NonSpaceEnd(s, i)])
    decreases |s| - i
  {
    if i < |s| && !IsSpace(s[i]) {
      NonSpaceEndIsRun(s, i + 1);
    }
  }

  /** `\s*` from i: the end of the run of whitespace starting at i. */
  function SpaceEnd(s: string, i: nat): (r: nat)
    requires i <= |s|
    ensures i <= r <= |s|
    decreases |s| - i
  {
    if i == |s| || !IsSpace(s[i]) then i else SpaceEnd(s, i + 1)
  }

  /** `\s*` after the group spans exactly [g, e). */
  predicate SpaceRun(s: string, g: nat, e: nat) {
    g <= e <= |s| &&
    (forall k :: g <= k < e ==> IsSpace(s[k])) &&
    (e == |s| || !IsSpace(s[e]))
  }

  /** The run `\s*` is as long as possible. */
  lemma {:induction false} SpaceEndIsRun(s: string, i: nat)
    requires i <= |s|
    ensures SpaceRun(s, i, SpaceEnd(s, i))
    decreases |s| - i
  {
    if i < |s| && IsSpace(s[i]) {
      SpaceEndIsRun(s, i + 1);
    }
  }

  /** From i on, only dot characters come before a `"` at q. */
  predicate ClosesAt(s: string, i: nat, q: nat) {
    i <= q < |s| && s[q] == '"' && forall k :: i <= k < q ==> IsDotChar(s[k])
  }

  /** The lazy tail `.*?"` of the quoted alternative, scanned from i. */
  function CloseQuote(s: string, i: nat): (r: Option<nat>)
    requires i <= |s|
    ensures r.Some? ==> i <= r.value < |s|
    decreases |s| - i
  {
    if i == |s| then None
    else if s[i] == '"' then Some(i)
    else if !IsDotChar(s[i]) then None
    else CloseQuote(s, i + 1)
  }

  /** The lazy scan finds the first closing quote reachable through dot characters, if there is one. */
  lemma {:induction false} CloseQuoteIsFirst(s: string, i: nat)
    requires i <= |s|
    ensures var r := CloseQuote(s, i);
      (r.Some? ==> ClosesAt(s, i, r.value) && forall k :: i <= k < r.value ==> s[k] != '"') &&
      (r.None? ==> forall q :: !ClosesAt(s, i, q))
    decreases |s| - i
  {
    if i < |s| && s[i] != '"' && IsDotChar(s[i]) {
      CloseQuoteIsFirst(s, i + 1);
      assert forall q :: ClosesAt(s, i, q) ==> ClosesAt(s, i + 1, q);
    }
  }

  /** The first alternative `[^"]\S*` matches [p, g): g is where the run of non-whitespace after p stops. */
  predicate PlainGroup(s: string, p: nat, g: nat) {
    p < g <= |s| && s[p] != '"' &&
    (forall k :: p < k < g ==> !IsSpace(s[k])) &&
    (g == |s| || IsSpace(s[g]))
  }

  /** The second alternative `".+?"` can close at q: at least one character in between, none a line terminator. */
  predicate QuotedRun(s: string, p: nat, q: nat) {
    p + 2 <= q < |s| && s[p] == '"' && s[q] == '"' &&
    forall k :: p < k < q ==> IsDotChar(s[k])
  }

  /** The pattern anchored at p, as the regex engine tries it: first alternative, then second. */
  function MatchAt(s: string, p: nat): (r: Option<Match>)
    requires p < |s|
    ensures r.Some? ==> r.value.start == p < r.value.groupEnd <= r.value.end <= |s|
  {
    if s[p] != '"' then
      var g := NonSpaceEnd(s, p + 1);
      Some(Match(p, g, SpaceEnd(s, g)))
    else if p + 2 <= |s| && IsDotChar(s[p + 1]) then
      match CloseQuote(s, p + 2)
      case Some(q) => Some(Match(p, q + 1, SpaceEnd(s, q + 1)))
      case None => None
    else
      None
  }

  /**
   * What the anchored pattern matches: a non-quote always starts a plain group;
   * a quote starts a quoted group up to the first closing quote after at least
   * one more character, and nothing matches exactly when a quote has no such
   * closing quote; the whitespace after the group is consumed.
   */
  lemma MatchAtSpec(s: string, p: nat)
    requires p < |s|
    ensures var r := MatchAt(s, p);
      (r.Some? ==> SpaceRun(s, r.value.groupEnd, r.value.end)) &&
      (s[p] != '"' ==> r.Some? && PlainGroup(s, p, r.value.groupEnd)) &&
      (s[p] == '"' && r.Some? ==>
        QuotedRun(s, p, r.value.groupEnd - 1) &&
        forall k :: p + 2 <= k < r.value.groupEnd - 1 ==> s[k] != '"') &&
      (r.None? <==> s[p] == '"' && forall q :: !QuotedRun(s, p, q))
  {
    if s[p] != '"' {
      var g := NonSpaceEnd(s, p + 1);
      NonSpaceEndIsRun(s, p + 1);
      SpaceEndIsRun(s, g);
    } else if p + 2 <= |s| && IsDotChar(s[p + 1]) {
      CloseQuoteIsFirst(s, p + 2);
      match CloseQuote(s, p + 2)
      case Some(q) =>
        SpaceEndIsRun(s, q + 1);
      case None =>
        assert forall q :: QuotedRun(s, p, q) ==> ClosesAt(s, p + 2, q);
    }
  }

  /** `find()` from p: the first position at or after p where the pattern matches. */
  function FindFrom(s: string, p: nat): (r: Option<Match>)
    requires p <= |s|
    ensures r.Some? ==> p <= r.value.start < |s| && MatchAt(s, r.value.start) == r
    decreases |s| - p
  {
    if p == |s| then None
    else
      match MatchAt(s, p)
      case Some(m) => Some(m)
      case None => FindFrom(s, p + 1)
  }

  /** `find()` skips exactly the positions where the pattern does not match. */
  lemma {:induction false} FindFromIsFirst(s: string, p: nat)
    requires p <= |s|
    ensures var r := FindFrom(s, p);
      (r.Some? ==> forall k :: p <= k < r.value.start ==> MatchAt(s, k).None?) &&
      (r.None? ==> forall k :: p <= k < |s| ==> MatchAt(s, k).None?)
    decreases |s| - p
  {
    if p < |s| && MatchAt(s, p).None? {
      FindFromIsFirst(s, p + 1);
    }
  }

  /** `String.replace("\"", "")`. */
  function RemoveQuotes(t: string): string {
    if t == [] then []
    else (if t[0] == '"' then [] else [t[0]]) + RemoveQuotes(t[1..])
  }

  /** Removing quotes keeps every other character, and changes nothing in a string without quotes. */
  lemma {:induction false} RemoveQuotesSpec(t: string)
    ensures '"' !in RemoveQuotes(t)
    ensures forall c :: c in RemoveQuotes(t) <==> c in t && c != '"'
    ensures '"' !in t ==> RemoveQuotes(t) == t
  {
    if t != [] {
      RemoveQuotesSpec(t[1..]);
      assert t == [t[0]] + t[1..];
    }
  }

  /**
   * The tokens of every successive `find()` over the text not read yet: each
   * `find()` resumes where the previous match ended, and reading only looks
   * ahead, so the unread rest of the line is all that matters
   * (`TokensAt` connects this with `find()` on the whole line).
   */
  function TokensOf(rest: string): seq<string>
    decreases |rest|
  {
    match FindFrom(rest, 0)
    case None => []
    case Some(m) => [RemoveQuotes(rest[m.start..m.groupEnd])] + TokensOf(rest[m.end..])
  }

  /** No token contains a `"`: every quote is removed, the quoted runs' own included. */
  lemma {:induction false} TokensHaveNoQuotes(rest: string)
    ensures forall k :: 0 <= k < |TokensOf(rest)| ==> '"' !in TokensOf(rest)[k]
    decreases |rest|
  {
    match FindFrom(rest, 0)
    case None =>
    case Some(m) =>
      TokensHaveNoQuotes(rest[m.end..]);
      RemoveQuotesSpec(rest[m.start..m.groupEnd]);
      assert TokensOf(rest) == [RemoveQuotes(rest[m.start..m.groupEnd])] + TokensOf(rest[m.end..]);
  }

  /**
   * The arguments `lineToCommand` adds for a whole line: `TokensOf` read
   * from the start of the line. `TokensOf` is the same reading applied to
   * whatever part of the line is still unread.
   */
  function Tokens(s: string): seq<string> {
    TokensOf(s)
  }

  /** The `while (mtc.find())` loop of `lineToCommand`. */
  method Tokenize(line: string) returns (args: seq<string>)
    ensures args == Tokens(line)
    ensures forall k :: 0 <= k < |args| ==> '"' !in args[k]
  {
    args := [];
    var pos := 0;
    var found := FindFrom(line, pos);
    assert line[pos..] == line;
    while found.Some?
      invariant pos <= |line|
      invariant found == FindFrom(line, pos)
      invariant args + TokensOf(line[pos..]) == Tokens(line)
      decreases |line| - pos
    {
      var m := found.value;
      var token := RemoveQuotes(line[m.start..m.groupEnd]);
      TokensAt(line, pos, m);
      ReadOnePiece(args, token, TokensOf(line[pos..]), TokensOf(line[m.end..]), Tokens(line));
      args := args + [token];
      pos := m.end;
      found := FindFrom(line, pos);
    }
    TokensAtEnd(line, pos);
    TokensHaveNoQuotes(line);
  }

  /** Moving one token from the unread part to the arguments keeps their concatenation. */
  lemma ReadOnePiece(args: seq<string>, token: string, unread: seq<string>, after: seq<string>, all: seq<string>)
    requires args + unread == all && unread == [token] + after
    ensures (args + [token]) + after == all
  {
  }

  /** When `find()` on the whole line fails from p, the rest of the line has no tokens. */
  lemma TokensAtEnd(s: string, p: nat)
    requires p <= |s| && FindFrom(s, p).None?
    ensures TokensOf(s[p..]) == []
  {
    FindFromShift(s, p, 0);
  }

  /**
   * `find()` on the whole line from p reads what the rest of the line would
   * give on its own: the group's token, then the text after the match.
   */
  lemma TokensAt(s: string, p: nat, m: Match)
    requires p <= |s| && FindFrom(s, p) == Some(m)
    ensures m.groupEnd <= m.end <= |s|
    ensures TokensOf(s[p..]) == [RemoveQuotes(s[m.start..m.groupEnd])] + TokensOf(s[m.end..])
  {
    var t := s[p..];
    FindFromShift(s, p, 0);
    var m0 := FindFrom(t, 0).value;
    ShiftedSlices(s, p, m, m0);
    TokensOfStep(t, m0, RemoveQuotes(s[m.start..m.groupEnd]));
  }

  /** The group and the text after a match, seen from p on or from the start. */
  lemma ShiftedSlices(s: string, p: nat, m: Match, m0: Match)
    requires p + m0.end <= |s| && m0.start <= m0.groupEnd <= m0.end
    requires m == Match(p + m0.start, p + m0.groupEnd, p + m0.end)
    ensures s[p..][m0.start..m0.groupEnd] == s[m.start..m.groupEnd]
    ensures s[p..][m0.end..] == s[m.end..]
  {
  }

  // ---------------------------------------------------------------------------
  // A reference for the tokenizer: rendering words as a command line.

  predicate HasSpace(w: string) {
    exists k :: 0 <= k < |w| && IsSpace(w[k])
  }

  /** A word a command line can carry: not empty, no `"`, no line terminator. */
  predicate Word(w: string) {
    w != [] && forall k :: 0 <= k < |w| ==> w[k] != '"' && IsDotChar(w[k])
  }

  /** A word as written on a command line: bare, or in quotes when it holds whitespace. */
  function Piece(w: string): string {
    if HasSpace(w) then "\"" + w + "\"" else w
  }

  /** Words written out separated by single spaces. */
  function Render(ws: seq<string>): string {
    if ws == [] then []
    else if |ws| == 1 then Piece(ws[0])
    else Piece(ws[0]) + " " + Render(ws[1..])
  }

  lemma PlainGroupUnique(s: string, p: nat, g1: nat, g2: nat)
    requires PlainGroup(s, p, g1) && PlainGroup(s, p, g2)
    ensures g1 == g2
  {
  }

  lemma SpaceRunUnique(s: string, g: nat, e1: nat, e2: nat)
    requires SpaceRun(s, g, e1) && SpaceRun(s, g, e2)
    ensures e1 == e2
  {
  }

  /** The match found at the start of a rendered piece covers exactly that piece and one separator. */
  lemma PieceMatch(s: string, p: nat, w: string, last: bool)
    requires Word(w)
    requires p + |Piece(w)| <= |s| && s[p..p + |Piece(w)|] == Piece(w)
    requires last ==> p + |Piece(w)| == |s|
    requires !last ==> p + |Piece(w)| + 1 < |s| && s[p + |Piece(w)|] == ' '
    requires !last ==> s[p + |Piece(w)| + 1] == '"' || !IsSpace(s[p + |Piece(w)| + 1])
    ensures FindFrom(s, p) == Some(Match(p, p + |Piece(w)|, if last then |s| else p + |Piece(w)| + 1))
  {
    var n := |Piece(w)|;
    var e := if last then |s| else p + n + 1;
    if HasSpace(w) {
      QuotedGroup(s, p, w);
    } else {
      PlainGroupOf(s, p, w);
    }
    MatchAtSpec(s, p);
    var m := MatchAt(s, p);
    assert SpaceRun(s, p + n, e);
    SpaceRunUnique(s, p + n, e, m.value.end);
  }

  /** A quoted word at p: the pattern's group is the word with its two quotes. */
  lemma QuotedGroup(s: string, p: nat, w: string)
    requires Word(w)
    requires p + |w| + 2 <= |s| && s[p..p + |w| + 2] == "\"" + w + "\""
    ensures MatchAt(s, p).Some? && MatchAt(s, p).value.groupEnd == p + |w| + 2
  {
    var n := |w| + 2;
    forall k | 0 <= k < n ensures s[p + k] == ("\"" + w + "\"")[k] {
      assert s[p..p + n][k] == s[p + k];
    }
    assert s[p] == '"' && s[p + n - 1] == '"';
    forall k | p + 1 <= k < p + n - 1 ensures s[k] != '"' && IsDotChar(s[k]) {
      assert s[k] == w[k - p - 1];
    }
    assert QuotedRun(s, p, p + n - 1);
    MatchAtSpec(s, p);
    var g := MatchAt(s, p).value.groupEnd;
    assert s[g - 1] == '"';
  }

  /** A bare word at p: the pattern's group is the word. */
  lemma PlainGroupOf(s: string, p: nat, w: string)
    requires Word(w) && !HasSpace(w)
    requires p + |w| <= |s| && s[p..p + |w|] == w
    requires p + |w| == |s| || IsSpace(s[p + |w|])
    ensures MatchAt(s, p).Some? && MatchAt(s, p).value.groupEnd == p + |w|
  {
    var n := |w|;
    forall k | p <= k < p + n ensures s[k] == w[k - p] && !IsSpace(s[k]) {
      assert s[p..p + n][k - p] == s[k];
    }
    assert PlainGroup(s, p, p + n);
    MatchAtSpec(s, p);
    PlainGroupUnique(s, p, p + n, MatchAt(s, p).value.groupEnd);
  }

  /** Rendered words start with `"` or a non-space. */
  lemma RenderStarts(ws: seq<string>)
    requires ws != [] && Word(ws[0])
    ensures Render(ws) != [] && (Render(ws)[0] == '"' || !IsSpace(Render(ws)[0]))
  {
    var w := ws[0];
    assert Render(ws)[0] == Piece(w)[0] by {
      if |ws| > 1 {
        assert Render(ws) == Piece(w) + " " + Render(ws[1..]);
      }
    }
    if !HasSpace(w) {
      assert !IsSpace(w[0]);
    }
  }

  /** A quoted piece loses exactly its two quotes. */
  lemma UnquotePiece(w: string)
    requires Word(w)
    ensures RemoveQuotes(Piece(w)) == w
  {
    RemoveQuotesSpec(w);
    if HasSpace(w) {
      assert Piece(w) == ['"'] + (w + ['"']);
      RemoveQuotesAppend(['"'], w + ['"']);
      RemoveQuotesAppend(w, ['"']);
    }
  }

  /** One `find()` step of the token list. */
  lemma TokensOfStep(rest: string, m: Match, t: string)
    requires FindFrom(rest, 0) == Some(m)
    requires RemoveQuotes(rest[m.start..m.groupEnd]) == t
    ensures TokensOf(rest) == [t] + TokensOf(rest[m.end..])
  {
  }

  /** The last rendered word is the last token. */
  lemma RenderLast(rest: string, w: string)
    requires Word(w) && rest == Piece(w)
    ensures TokensOf(rest) == [w]
  {
    assert rest[0..|Piece(w)|] == Piece(w);
    PieceTokens(rest, w, true);
  }

  /** A piece, a space and more text: the piece's word is the next token, and reading goes on at the text. */
  lemma PieceThenRest(rest: string, w: string, more: string)
    requires Word(w) && more != [] && (more[0] == '"' || !IsSpace(more[0]))
    requires rest == Piece(w) + " " + more
    ensures TokensOf(rest) == [w] + TokensOf(more)
  {
    assert rest[0..] == rest;
    SplitRendered(rest, 0, Piece(w), more);
    assert rest[|Piece(w)| + 1] == more[0] by {
      assert rest[|Piece(w)| + 1..][0] == rest[|Piece(w)| + 1];
    }
    PieceTokens(rest, w, false);
  }

  /** The token read at the start of a rendered piece is its word; reading goes on after one separator. */
  lemma PieceTokens(rest: string, w: string, last: bool)
    requires Word(w)
    requires |Piece(w)| <= |rest| && rest[0..|Piece(w)|] == Piece(w)
    requires last ==> |Piece(w)| == |rest|
    requires !last ==> |Piece(w)| + 1 < |rest| && rest[|Piece(w)|] == ' '
    requires !last ==> rest[|Piece(w)| + 1] == '"' || !IsSpace(rest[|Piece(w)| + 1])
    ensures last ==> TokensOf(rest) == [w]
    ensures !last ==> TokensOf(rest) == [w] + TokensOf(rest[|Piece(w)| + 1..])
  {
    var n := |Piece(w)|;
    var e := if last then |rest| else n + 1;
    UnquotePiece(w);
    PieceMatch(rest, 0, w, last);
    TokensOfStep(rest, Match(0, n, e), w);
    if last {
      assert rest[e..] == [];
    }
  }

  /** Where a piece, a space and the rest sit inside s. */
  lemma SplitRendered(s: string, p: nat, piece: string, rest: string)
    requires p <= |s| && s[p..] == piece + " " + rest
    ensures p + |piece| + 1 <= |s|
    ensures s[p..p + |piece|] == piece && s[p + |piece|] == ' ' && s[p + |piece| + 1..] == rest
  {
    assert s[p + |piece|] == s[p..][|piece|];
  }

  lemma {:induction false} RemoveQuotesAppend(a: string, b: string)
    ensures RemoveQuotes(a + b) == RemoveQuotes(a) + RemoveQuotes(b)
  {
    if a == [] {
      assert a + b == b;
    } else {
      var head := if a[0] == '"' then [] else [a[0]];
      assert (a + b)[0] == a[0] && (a + b)[1..] == a[1..] + b;
      assert RemoveQuotes(a + b) == head + RemoveQuotes(a[1..] + b);
      RemoveQuotesAppend(a[1..], b);
      assert head + (RemoveQuotes(a[1..]) + RemoveQuotes(b)) == (head + RemoveQuotes(a[1..])) + RemoveQuotes(b);
    }
  }

  /** Round trip: words written out as a command line tokenize back to the same words. */
  lemma {:induction false} RenderTokens(ws: seq<string>)
    requires forall k :: 0 <= k < |ws| ==> Word(ws[k])
    ensures Tokens(Render(ws)) == ws
  {
    if ws == [] {
    } else if |ws| == 1 {
      RenderLast(Render(ws), ws[0]);
    } else {
      var w, more := ws[0], ws[1..];
      assert Render(ws) == Piece(w) + " " + Render(more);
      ConsTokens(w, more);
      RenderTokens(more);
      assert ws == [w] + more;
    }
  }

  /** A rendered word, a space and rendered words: the word, then the tokens of the rest on their own. */
  lemma ConsTokens(w: string, more: seq<string>)
    requires Word(w) && more != [] && Word(more[0])
    ensures Tokens(Piece(w) + " " + Render(more)) == [w] + Tokens(Render(more))
  {
    RenderStarts(more);
    PieceThenRest(Piece(w) + " " + Render(more), w, Render(more));
  }

  // ---------------------------------------------------------------------------
  // Reading only looks ahead: text before the position changes nothing.

  /** A match moved d characters to the right. */
  function ShiftMatch(r: Option<Match>, d: nat): Option<Match> {
    match r
    case None => None
    case Some(m) => Some(Match(m.start + d, m.groupEnd + d, m.end + d))
  }

  lemma {:induction false} NonSpaceEndShift(s: string, d: nat, i: nat)
    requires d + i <= |s|
    ensures NonSpaceEnd(s, d + i) == d + NonSpaceEnd(s[d..], i)
    decreases |s| - d - i
  {
    if d + i < |s| {
      assert s[d..][i] == s[d + i];
      NonSpaceEndShift(s, d, i + 1);
    }
  }

  lemma {:induction false} SpaceEndShift(s: string, d: nat, i: nat)
    requires d + i <= |s|
    ensures SpaceEnd(s, d + i) == d + SpaceEnd(s[d..], i)
    decreases |s| - d - i
  {
    if d + i < |s| {
      assert s[d..][i] == s[d + i];
      SpaceEndShift(s, d, i + 1);
    }
  }

  lemma {:induction false} CloseQuoteShift(s: string, d: nat, i: nat)
    requires d + i <= |s|
    ensures CloseQuote(s[d..], i).None? ==> CloseQuote(s, d + i).None?
    ensures CloseQuote(s[d..], i).Some? ==> CloseQuote(s, d + i) == Some(d + CloseQuote(s[d..], i).value)
    decreases |s| - d - i
  {
    if d + i < |s| {
      assert s[d..][i] == s[d + i];
      CloseQuoteShift(s, d, i + 1);
    }
  }

  lemma MatchAtShift(s: string, d: nat, i: nat)
    requires d + i < |s|
    ensures MatchAt(s, d + i) == ShiftMatch(MatchAt(s[d..], i), d)
  {
    var t := s[d..];
    assert t[i] == s[d + i];
    if t[i] != '"' {
      NonSpaceEndShift(s, d, i + 1);
      SpaceEndShift(s, d, NonSpaceEnd(t, i + 1));
    } else if i + 2 <= |t| {
      assert t[i + 1] == s[d + i + 1];
      CloseQuoteShift(s, d, i + 2);
      if CloseQuote(t, i + 2).Some? {
        SpaceEndShift(s, d, CloseQuote(t, i + 2).value + 1);
      }
    }
  }

  lemma {:induction false} FindFromShift(s: string, d: nat, i: nat)
    requires d + i <= |s|
    ensures FindFrom(s, d + i) == ShiftMatch(FindFrom(s[d..], i), d)
    decreases |s| - d - i
  {
    if d + i < |s| {
      MatchAtShift(s, d, i);
      if MatchAt(s[d..], i).None? {
        FindFromShift(s, d, i + 1);
      }
    }
  }

  // ---------------------------------------------------------------------------
  // Particular lines.

  /** Quoted runs are one token, without their quotes. */
  lemma TokensOfQuotedExample()
    ensures Tokens("foo \"bar baz\" qux") == ["foo", "bar baz", "qux"]
  {
    var ws := ["foo", "bar baz", "qux"];
    assert HasSpace("bar baz") by { assert IsSpace("bar baz"[3]); }
    assert Render(ws) == "foo \"bar baz\" qux";
    RenderTokens(ws);
  }

  /** The empty line has no tokens. */
  lemma TokensOfEmpty()
    ensures Tokens("") == []
  {
  }

  /**
   * Whitespace at the very start is not skipped: `[^"]` accepts a space, so a
   * line of blanks yields one token, its first blank.
   */
  lemma TokensOfBlanks()
    ensures Tokens("   ") == [" "]
  {
    var s := "   ";
    assert PlainGroup(s, 0, 1);
    MatchAtSpec(s, 0);
    PlainGroupUnique(s, 0, 1, MatchAt(s, 0).value.groupEnd);
    assert SpaceRun(s, 1, 3);
    SpaceRunUnique(s, 1, 3, MatchAt(s, 0).value.end);
    TokensOfStep(s, Match(0, 1, 3), RemoveQuotes(s[0..1]));
    assert s[3..] == [];
    assert s[0..1] == " ";
    RemoveQuotesSpec(" ");
  }

  /** An opening quote with no closing quote is skipped; the rest is an ordinary token. */
  lemma TokensOfUnterminatedQuote()
    ensures Tokens("\"abc") == ["abc"]
  {
    var s := "\"abc";
    assert forall q: nat :: !QuotedRun(s, 0, q);
    MatchAtSpec(s, 0);
    assert PlainGroup(s, 1, 4);
    MatchAtSpec(s, 1);
    PlainGroupUnique(s, 1, 4, MatchAt(s, 1).value.groupEnd);
    assert SpaceRun(s, 4, 4);
    SpaceRunUnique(s, 4, 4, MatchAt(s, 1).value.end);
    assert FindFrom(s, 0) == FindFrom(s, 1);
    TokensOfStep(s, Match(1, 4, 4), RemoveQuotes(s[1..4]));
    assert s[4..] == [];
    assert s[1..4] == "abc";
    RemoveQuotesSpec("abc");
  }
}
