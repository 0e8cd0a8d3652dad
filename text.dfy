/**
 * The few `java.lang.String` operations the configuration parser relies on,
 * written out over `seq<char>`: `trim`, `startsWith`, `contains`,
 * `toLowerCase` (for the ASCII letters), `split` on a single character, the
 * regex character classes `\s` and `.`, and `String.join`.
 */
module Text {

  /** Java regex `\s`: space, tab, line feed, vertical tab, form feed, carriage return. */
  predicate IsSpace(c: char) {
    c == ' ' || c == '\t' || c == '\n' || c == '\U{B}' || c == '\U{C}' || c == '\r'
  }

  /** Java regex `.` without DOTALL: anything except a line terminator. */
  predicate IsDotChar(c: char) {
    !(c == '\n' || c == '\r' || c == '\U{85}' || c == '\U{2028}' || c == '\U{2029}')
  }

  /** What `String.trim()` strips at either end: every character up to U+0020. */
  predicate IsTrimmable(c: char) {
    c <= ' '
  }

  /** The first index at or after `i` that `trim` keeps (or `|s|`). */
  function LeadEnd(s: string, i: nat): (r: nat)
    requires i <= |s|
    ensures i <= r <= |s|
    ensures forall k :: i <= k < r ==> IsTrimmable(s[k])
    ensures r == |s| || !IsTrimmable(s[r])
    decreases |s| - i
  {
    if i == |s| || !IsTrimmable(s[i]) then i else LeadEnd(s, i + 1)
  }

  /** One past the last index before `j` that `trim` keeps (or 0). */
  function TrailStart(s: string, j: nat): (r: nat)
    requires j <= |s|
    ensures r <= j
    ensures forall k :: r <= k < j ==> IsTrimmable(s[k])
    ensures r == 0 || !IsTrimmable(s[r - 1])
  {
    if j == 0 || !IsTrimmable(s[j - 1]) then j else TrailStart(s, j - 1)
  }

  /** `String.trim()`. */
  function Trim(s: string): (r: string)
    ensures |r| <= |s|
    ensures r == [] <==> forall k :: 0 <= k < |s| ==> IsTrimmable(s[k])
    ensures r != [] ==> !IsTrimmable(r[0]) && !IsTrimmable(r[|r| - 1])
  {
    var i := LeadEnd(s, 0);
    var j := TrailStart(s, |s|);
    if i < j then s[i..j] else []
  }

  /** Trim is determined by its cut points: strip trimmable ends, keep a middle whose ends are kept characters. */
  lemma TrimIs(s: string, i: nat, j: nat)
    requires i < j <= |s|
    requires forall k :: 0 <= k < i ==> IsTrimmable(s[k])
    requires forall k :: j <= k < |s| ==> IsTrimmable(s[k])
    requires !IsTrimmable(s[i]) && !IsTrimmable(s[j - 1])
    ensures Trim(s) == s[i..j]
  {
    var a := LeadEnd(s, 0);
    var b := TrailStart(s, |s|);
    assert a == i;
    assert b == j;
  }

  /** A string with no trimmable character at either end is its own trim. */
  lemma TrimOfTrimmed(s: string)
    requires s != [] && !IsTrimmable(s[0]) && !IsTrimmable(s[|s| - 1])
    ensures Trim(s) == s
  {
    TrimIs(s, 0, |s|);
  }

  /** `String.startsWith`. */
  predicate StartsWith(s: string, prefix: string) {
    |prefix| <= |s| && s[..|prefix|] == prefix
  }

  /** `sub` occurs in `s` starting at index `i`. */
  predicate OccursAt(s: string, sub: string, i: nat) {
    i + |sub| <= |s| && s[i..i + |sub|] == sub
  }

  /** `String.contains`. */
  predicate Contains(s: string, sub: string) {
    exists i: nat :: i <= |s| && OccursAt(s, sub, i)
  }

  predicate IsUpperAscii(c: char) {
    'A' <= c <= 'Z'
  }

  /** `Character.toLowerCase` on ASCII letters; other characters are left alone. */
  function LowerChar(c: char): (r: char)
    ensures IsUpperAscii(c) ==> r as int == c as int + 32
    ensures !IsUpperAscii(c) ==> r == c
  {
    if IsUpperAscii(c) then (c as int + 32) as char else c
  }

  /** `toLowerCase(Locale.ENGLISH)`, restricted to ASCII letters. */
  function Lower(s: string): (r: string)
    ensures |r| == |s|
    ensures forall k :: 0 <= k < |s| ==> r[k] == LowerChar(s[k])
  {
    seq(|s|, k requires 0 <= k < |s| => LowerChar(s[k]))
  }

  /**
   * `v.matches("[Ww][Oo]...")` for a lower-case ASCII word: same length, and each
   * character is the word's letter in one of its two cases.
   */
  predicate MatchesIgnoringCase(v: string, word: string) {
    |v| == |word| &&
    forall k :: 0 <= k < |v| ==> v[k] == word[k] || LowerChar(v[k]) == word[k]
  }

  /** Every field between separators, empty ones included (`a::b` has three). */
  function Split(s: string, sep: char): (r: seq<string>)
    ensures |r| >= 1
    ensures forall k :: 0 <= k < |r| ==> sep !in r[k]
  {
    if s == [] then [[]]
    else
      var rest := Split(s[1..], sep);
      if s[0] == sep then [[]] + rest else [[s[0]] + rest[0]] + rest[1..]
  }

  /** Fields glued back together with the separator between them. */
  function Join(fields: seq<string>, sep: char): string {
    if |fields| == 0 then []
    else if |fields| == 1 then fields[0]
    else fields[0] + [sep] + Join(fields[1..], sep)
  }

  lemma {:induction false} JoinSplit(s: string, sep: char)
    ensures Join(Split(s, sep), sep) == s
  {
    if s != [] {
      var rest := Split(s[1..], sep);
      JoinSplit(s[1..], sep);
      if s[0] == sep {
        assert Split(s, sep) == [[]] + rest;
        assert ([[]] + rest)[1..] == rest;
      } else {
        var r := [[s[0]] + rest[0]] + rest[1..];
        assert Split(s, sep) == r;
        if |rest| == 1 {
          assert Join(r, sep) == [s[0]] + rest[0];
        } else {
          assert r[1..] == rest[1..];
          assert Join(rest, sep) == rest[0] + [sep] + Join(rest[1..], sep);
          assert Join(r, sep) == [s[0]] + rest[0] + [sep] + Join(rest[1..], sep);
        }
        assert s == [s[0]] + s[1..];
      }
    }
  }

  /** A string free of the separator is a single field; one more separator and field start one more field. */
  lemma {:induction false} SplitCons(a: string, sep: char, b: string, withSep: bool)
    requires sep !in a
    ensures !withSep ==> Split(a, sep) == [a]
    ensures withSep ==> Split(a + [sep] + b, sep) == [a] + Split(b, sep)
    decreases |a|
  {
    var s := if withSep then a + [sep] + b else a;
    if a == [] {
      if withSep {
        assert s[0] == sep && s[1..] == b;
      }
    } else {
      assert s[0] == a[0] && s[1..] == (if withSep then a[1..] + [sep] + b else a[1..]);
      SplitCons(a[1..], sep, b, withSep);
      assert a == [a[0]] + a[1..];
    }
  }

  lemma {:induction false} SplitJoin(fields: seq<string>, sep: char)
    requires |fields| >= 1
    requires forall k :: 0 <= k < |fields| ==> sep !in fields[k]
    ensures Split(Join(fields, sep), sep) == fields
  {
    if |fields| == 1 {
      SplitCons(fields[0], sep, [], false);
    } else {
      SplitJoin(fields[1..], sep);
      SplitCons(fields[0], sep, Join(fields[1..], sep), true);
      assert fields == [fields[0]] + fields[1..];
    }
  }

  /** The fields up to the last non-empty one (Java removes trailing empty strings). */
  function DropTrailingEmpty(fs: seq<string>): (r: seq<string>)
    ensures |r| <= |fs| && r == fs[..|r|]
    ensures r == [] || r[|r| - 1] != []
    ensures forall k :: |r| <= k < |fs| ==> fs[k] == []
  {
    if fs == [] then []
    else if fs[|fs| - 1] == [] then DropTrailingEmpty(fs[..|fs| - 1])
    else fs
  }

  /**
   * `String.split(String.valueOf(sep))` with no limit: the whole string when the
   * separator does not occur, otherwise the fields with trailing empty ones removed.
   */
  function JavaSplit(s: string, sep: char): seq<string> {
    if sep !in s then [s] else DropTrailingEmpty(Split(s, sep))
  }

  /**
   * The first two fields of `k:v...` are the text before the first separator and
   * the text between the first and the second, when the latter is not empty.
   */
  lemma KeyValueFields(k: string, sep: char, v: string, rest: string)
    requires sep !in k && sep !in v && v != []
    requires rest == [] || rest[0] == sep
    ensures var fs := JavaSplit(k + [sep] + v + rest, sep);
      |fs| >= 2 && fs[0] == k && fs[1] == v
  {
    var s := k + [sep] + v + rest;
    assert s[|k|] == sep;
    assert s == k + [sep] + (v + rest);
    SplitCons(k, sep, v + rest, true);
    var fs := Split(s, sep);
    assert fs == [k] + Split(v + rest, sep);
    var vs := Split(v + rest, sep);
    if rest == [] {
      SplitCons(v, sep, [], false);
      assert v + rest == v;
      assert vs == [v];
    } else {
      SplitCons(v, sep, rest[1..], true);
      assert v + rest == v + [sep] + rest[1..];
      assert vs == [v] + Split(rest[1..], sep);
    }
    assert fs[0] == k && fs[1] == v;
    KeepsNonEmptyField(fs, 1);
    assert JavaSplit(s, sep) == DropTrailingEmpty(fs);
  }

  /**
   * The fields of `k::...` where the text after the second separator has a
   * non-separator character: field 0 is the key and field 1 is empty, and both
   * survive the removal of trailing empty fields.
   */
  lemma EmptyValueFields(k: string, sep: char, rest: string, i: nat)
    requires sep !in k
    requires i < |rest| && rest[0] == sep && rest[i] != sep
    ensures var fs := JavaSplit(k + [sep] + rest, sep);
      |fs| >= 2 && fs[0] == k && fs[1] == []
  {
    var s := k + [sep] + rest;
    assert s[|k|] == sep;
    SplitCons(k, sep, rest, true);
    SplitCons([], sep, rest[1..], true);
    assert rest == [] + [sep] + rest[1..];
    var tail := Split(rest[1..], sep);
    var fs := Split(s, sep);
    assert fs == [k] + ([[]] + tail);
    var j := NonSeparatorField(rest[1..], sep, i - 1);
    assert fs[j + 2] == tail[j];
    KeepsNonEmptyField(fs, j + 2);
    var r := DropTrailingEmpty(fs);
    assert r[..j + 3][0] == fs[..j + 3][0] && r[..j + 3][1] == fs[..j + 3][1];
  }

  /** Dropping trailing empty fields keeps every field up to a non-empty one. */
  lemma KeepsNonEmptyField(fs: seq<string>, i: nat)
    requires i < |fs| && fs[i] != []
    ensures i < |DropTrailingEmpty(fs)| && DropTrailingEmpty(fs)[..i + 1] == fs[..i + 1]
  {
    var r := DropTrailingEmpty(fs);
    assert r == fs[..|r|];
  }

  /** A string with a non-separator character has a non-empty field, at index j. */
  lemma {:induction false} NonSeparatorField(t: string, sep: char, i: nat) returns (j: nat)
    requires i < |t| && t[i] != sep
    ensures j < |Split(t, sep)| && Split(t, sep)[j] != []
    decreases |t|
  {
    if t[0] == sep {
      var j' := NonSeparatorField(t[1..], sep, i - 1);
      assert Split(t, sep) == [[]] + Split(t[1..], sep);
      j := j' + 1;
    } else {
      j := 0;
    }
  }

  /** Nothing but separators after the first field leaves at most one field. */
  lemma NoValueField(k: string, sep: char, tail: string)
    requires sep !in k
    requires forall i :: 0 <= i < |tail| ==> tail[i] == sep
    ensures |JavaSplit(k + tail, sep)| <= 1
  {
    if tail != [] {
      assert (k + tail)[|k|] == sep;
      SplitCons(k, sep, tail[1..], true);
      assert k + tail == k + [sep] + tail[1..];
      SeparatorsSplit(tail[1..], sep);
    }
  }

  /** A run of separators splits into empty fields only. */
  lemma {:induction false} SeparatorsSplit(t: string, sep: char)
    requires forall i :: 0 <= i < |t| ==> t[i] == sep
    ensures forall k :: 0 <= k < |Split(t, sep)| ==> Split(t, sep)[k] == []
  {
    if t != [] {
      SeparatorsSplit(t[1..], sep);
    }
  }

  /** `String.join(sep, parts)`. */
  function JoinWith(parts: seq<string>, sep: string): string {
    if |parts| == 0 then []
    else if |parts| == 1 then parts[0]
    else parts[0] + sep + JoinWith(parts[1..], sep)
  }

  /** Joining one more part adds the separator and that part at the end. */
  lemma {:induction false} JoinWithSnoc(parts: seq<string>, sep: string, last: string)
    requires parts != []
    ensures JoinWith(parts + [last], sep) == JoinWith(parts, sep) + sep + last
  {
    if |parts| == 1 {
      assert (parts + [last])[1..] == [last];
    } else {
      assert (parts + [last])[1..] == parts[1..] + [last];
      JoinWithSnoc(parts[1..], sep, last);
    }
  }
}
