# GatorGradle grading configuration, in Dafny

This project models the configuration parser of the GatorGradle plugin: the
class `GatorGradleConfig` (`src/main/java/org/gatorgradle/config/GatorGradleConfig.java`).
That class reads an assignment's configuration file in two passes:

- a **line filter** drops blank lines and `#` comment lines, then numbers the remaining lines 1..n;
- a **header pass** (`parseHeader`) finds the last line that contains `---`, then reads `key: value` lines
  above it into two settings: `name` gives the assignment name and `break` gives the build-break flag;
- a **command pass** (`parseCommands`) turns every line that starts with `gg: ` into a GatorGrader command.
  It cuts the line into arguments with a quote-aware tokenizer and appends the command to the config's command list.

The model keeps the source's form:

- The config object is a Dafny `class` whose methods update its fields (`With`, `ParseHeader`, `ParseCommands`,
  `Parse`). Each method is proved against a specification function over values (`ParseHeaderSpec`,
  `CommandsFor`, `Appended`, `ParseSpec`).
- The loops of the source are `while`/`for` loops with invariants: the `find()` loop of the tokenizer, the
  line-numbering counter, the marker collection, the header `forEach` and the `with` loop.
- The string operations the parser relies on (`trim`, `split(":")`, `startsWith`, `contains`, `toLowerCase`,
  the regex classes `\s` and `.`, `String.join`) are written out over `seq<char>` in module `Text`.

Modules: `Wrappers` (Option, Result), `Text`, `LineFilter`, `Tokenizer`, `Commands`, `Header`,
`Config` (the class, `parse`, and the `create`/`get` singleton as an explicit `Registry` object), and
`ConfigExamples` (whole sample files).

The tokenizer reads the unread rest of the line: `Tokenizer.TokensOf` applies `find()` from the start of the
text left after the previous match. `Tokenizer.TokensAt` and `Tokenizer.FindFromShift` prove that this is what
`find()` from the previous match's end on the whole line reads, because the pattern only looks ahead; the
`while (mtc.find())` loop of `Tokenizer.Tokenize` runs on the whole line and is proved equal to it.

Behaviours of the code worth knowing, which the model follows:

- The tokenizer pattern `([^"]\S*|".+?")\s*` lets a token start with whitespace. So a line of blanks gives one
  token, its first blank (`Tokenizer.TokensOfBlanks`), and leading whitespace is not skipped.
- An opening quote with no closing quote is not an error. `find()` skips that position and the rest becomes
  ordinary tokens (`Tokenizer.TokensOfUnterminatedQuote`).
- `parseCommands` selects lines with a case-sensitive `gg: `, while `lineToCommand` tests the prefix after
  lower-casing. So every command `parse` produces is a GatorGrader command (`Config.CommandsAreSpecial`).
  A basic command only comes from calling `lineToCommand` directly.
- A header line without a colon, or with only colons after its key, fails with an index-out-of-bounds error
  (`Header.MissingValueEntry`): `split(":")` yields fewer than two fields, so `spl[1]` at line 136 does not exist,
  and for a line of colons alone it yields none, so already `spl[0]` at line 135 fails. An exception in the header pass leaves the settings as the earlier lines set them,
  and the command pass does not run.
- A config created for a file has a null command list until the first `with`. `size()` and `toString()` then
  fail; the model returns `Err(NullCommandList)`.

## Model

| member | source | states |
|---|---|---|
| Text.IsSpace | src/main/java/org/gatorgradle/config/GatorGradleConfig.java:54 | the regex class `\s`: space, tab, line feed, vertical tab, form feed and carriage return; the tokenizer's runs (`SpaceRun`, `PlainGroup`) are stated with it |
| Text.IsDotChar | src/main/java/org/gatorgradle/config/GatorGradleConfig.java:54 | the regex `.` without DOTALL: any character except the line terminators `\n`, `\r`, U+0085, U+2028 and U+2029; `ClosesAt` and `QuotedRun` are stated with it |
| Text.IsTrimmable | src/main/java/org/gatorgradle/config/GatorGradleConfig.java:174 | what `trim()` strips at either end: every character up to U+0020; `Trim`, `TrimIs` and `Kept` are stated with it |
| Text.Trim | src/main/java/org/gatorgradle/config/GatorGradleConfig.java:135-136 | `trim()`: the result is empty exactly when every character is at most U+0020; otherwise it starts and ends with a character above U+0020 |
| Text.TrimIs | src/main/java/org/gatorgradle/config/GatorGradleConfig.java:135-136 | the trim of a string is the middle piece between trimmable ends whose end characters are kept, and it is unique |
| Text.TrimOfTrimmed | src/main/java/org/gatorgradle/config/GatorGradleConfig.java:135-136 | a string that starts and ends with a character above U+0020 is its own trim |
| Text.Split | src/main/java/org/gatorgradle/config/GatorGradleConfig.java:134 | splitting yields at least one field, and no field contains the separator |
| Text.JoinSplit | src/main/java/org/gatorgradle/config/GatorGradleConfig.java:134 | joining the fields of a split with the separator gives back the original string |
| Text.SplitJoin | src/main/java/org/gatorgradle/config/GatorGradleConfig.java:134 | splitting separator-free fields joined by the separator gives back those fields |
| Text.SplitCons | src/main/java/org/gatorgradle/config/GatorGradleConfig.java:134 | a separator-free field splits into itself; followed by the separator and more text, it gives that field, then the split of the rest |
| Text.DropTrailingEmpty | src/main/java/org/gatorgradle/config/GatorGradleConfig.java:134 | Java's `split` keeps a prefix of the fields, whose last field is non-empty, and drops only empty fields |
| Text.JavaSplit | src/main/java/org/gatorgradle/config/GatorGradleConfig.java:134 | `split(":")` with no limit: the whole line when it has no colon, otherwise the fields with trailing empty ones removed (its fields are described by `KeyValueFields`, `EmptyValueFields` and `NoValueField`) |
| Text.KeyValueFields | src/main/java/org/gatorgradle/config/GatorGradleConfig.java:134-136 | for `k:v…` with a non-empty `v`, `split(":")` has field 0 = `k` and field 1 = `v` (the text up to the second colon) |
| Text.EmptyValueFields | src/main/java/org/gatorgradle/config/GatorGradleConfig.java:134-136 | for `k::…` with a non-colon character after the second colon, field 0 is `k` and field 1 is empty, so `spl[1]` exists and is empty |
| Text.NonSeparatorField | src/main/java/org/gatorgradle/config/GatorGradleConfig.java:134 | a string with a non-separator character has a non-empty field, so that field and every field before it survive the removal of trailing empty fields |
| Text.KeepsNonEmptyField | src/main/java/org/gatorgradle/config/GatorGradleConfig.java:134 | dropping trailing empty fields keeps every field up to and including a non-empty one |
| Text.NoValueField | src/main/java/org/gatorgradle/config/GatorGradleConfig.java:134-136 | a line with only colons after the key splits into at most one field, so `spl[1]` is out of bounds |
| Text.SeparatorsSplit | src/main/java/org/gatorgradle/config/GatorGradleConfig.java:134 | a string of separators only splits into empty fields |
| Text.LowerChar | src/main/java/org/gatorgradle/config/GatorGradleConfig.java:98 | `toLowerCase(Locale.ENGLISH)` on one character: an ASCII capital maps to the letter 32 code points above it, and every other character to itself |
| Text.Lower | src/main/java/org/gatorgradle/config/GatorGradleConfig.java:98 | lower-casing keeps the length and maps each character by itself (ASCII letters only) |
| Text.JoinWith | src/main/java/org/gatorgradle/config/GatorGradleConfig.java:200-201 | `String.join(sep, parts)`: the parts in order with the separator between consecutive parts, and the empty string for no parts; `JoinWithSnoc` gives its step and `ToString` is proved equal to it |
| Text.JoinWithSnoc | src/main/java/org/gatorgradle/config/GatorGradleConfig.java:200-201 | `String.join` of one more part appends the separator and that part |
| Text.StartsWith | src/main/java/org/gatorgradle/config/GatorGradleConfig.java:160 | `startsWith`: the string begins with the prefix |
| Text.Contains | src/main/java/org/gatorgradle/config/GatorGradleConfig.java:124 | `contains`: the text occurs at some position of the string (used for `---`; `MessageNamesValue` applies it) |
| Text.MatchesIgnoringCase | src/main/java/org/gatorgradle/config/GatorGradleConfig.java:142-144 | `matches("[Tt][Rr][Uu][Ee]")` and the `false` pattern: same length, each letter equal or equal after lower-casing |
| LineFilter.Kept | src/main/java/org/gatorgradle/config/GatorGradleConfig.java:174 | the filter test `trim().length() > 0 && !startsWith("#")`; `KeptIff` states it character by character |
| LineFilter.KeptContents | src/main/java/org/gatorgradle/config/GatorGradleConfig.java:174 | the texts the stream filter keeps, in order; `KeptContentsPass`, `KeptMembers` and `KeptAppend` state what it keeps |
| LineFilter.KeptIff | src/main/java/org/gatorgradle/config/GatorGradleConfig.java:174 | a line is kept exactly when it has a character above U+0020 and does not start with `#` |
| LineFilter.KeptFirst | src/main/java/org/gatorgradle/config/GatorGradleConfig.java:174 | a line whose first character is above U+0020 and not `#` is kept |
| LineFilter.KeptContentsPass | src/main/java/org/gatorgradle/config/GatorGradleConfig.java:174 | the retained lines are no more than the input, and each passes the test |
| LineFilter.KeptAppend | src/main/java/org/gatorgradle/config/GatorGradleConfig.java:174 | the filter distributes over concatenation, so it keeps the original order |
| LineFilter.KeptMembers | src/main/java/org/gatorgradle/config/GatorGradleConfig.java:174 | a text is retained exactly when it is in the input and passes the test |
| LineFilter.KeptAll | src/main/java/org/gatorgradle/config/GatorGradleConfig.java:174 | input without blank or comment lines passes the filter unchanged |
| LineFilter.Filter | src/main/java/org/gatorgradle/config/GatorGradleConfig.java:172-176 | the k-th retained line gets number k + 1 and keeps its untrimmed text |
| LineFilter.Contents | src/main/java/org/gatorgradle/config/GatorGradleConfig.java:173-176 | the texts of the lines, position by position |
| LineFilter.FilterWellNumbered | src/main/java/org/gatorgradle/config/GatorGradleConfig.java:172-176 | line numbers strictly increase |
| LineFilter.FilterIdempotent | src/main/java/org/gatorgradle/config/GatorGradleConfig.java:172-176 | filtering the filter's own output gives the same numbered lines |
| LineFilter.FilterSnoc | src/main/java/org/gatorgradle/config/GatorGradleConfig.java:172-176 | one more input line adds, when kept, one line numbered one past the last, and changes no earlier line |
| LineFilter.FilterLines | src/main/java/org/gatorgradle/config/GatorGradleConfig.java:172-176 | the loop with its running counter computes exactly `Filter` |
| Tokenizer.NonSpaceEnd | src/main/java/org/gatorgradle/config/GatorGradleConfig.java:54 | `\S*` from i ends between i and the end of the line |
| Tokenizer.NonSpaceEndIsRun | src/main/java/org/gatorgradle/config/GatorGradleConfig.java:54 | `\S*`: every character of the run is non-whitespace, and the run stops at whitespace or at the end, so it is maximal |
| Tokenizer.SpaceEnd | src/main/java/org/gatorgradle/config/GatorGradleConfig.java:54 | `\s*` from i ends between i and the end of the line |
| Tokenizer.SpaceEndIsRun | src/main/java/org/gatorgradle/config/GatorGradleConfig.java:54 | `\s*`: the run of whitespace from i is maximal |
| Tokenizer.SpaceRun | src/main/java/org/gatorgradle/config/GatorGradleConfig.java:54 | the trailing `\s*` of the pattern: a whitespace run from g to e that stops at the end of the line or at a non-space character |
| Tokenizer.ClosesAt | src/main/java/org/gatorgradle/config/GatorGradleConfig.java:54 | q closes the lazy `.+?"` tail begun at i: `s[q]` is a quote and no line terminator lies between i and q |
| Tokenizer.CloseQuote | src/main/java/org/gatorgradle/config/GatorGradleConfig.java:54 | a closing quote found by the lazy scan lies inside the line, at or after i |
| Tokenizer.CloseQuoteIsFirst | src/main/java/org/gatorgradle/config/GatorGradleConfig.java:54 | lazy `.*?"`: the scan returns the first `"` reachable through non-terminator characters, with no `"` before it, and returns none exactly when no `"` is reachable |
| Tokenizer.PlainGroup | src/main/java/org/gatorgradle/config/GatorGradleConfig.java:54 | the first alternative `[^"]\S*` matches from p to g: `s[p]` is not a quote, and g ends the run of non-space characters after p |
| Tokenizer.QuotedRun | src/main/java/org/gatorgradle/config/GatorGradleConfig.java:54 | the second alternative `".+?"` can end at q: quotes at p and q, at least one character between them, and no line terminator there |
| Tokenizer.MatchAt | src/main/java/org/gatorgradle/config/GatorGradleConfig.java:54 | a match anchored at p starts at p, has a non-empty group, and ends within the line after its group |
| Tokenizer.MatchAtSpec | src/main/java/org/gatorgradle/config/GatorGradleConfig.java:54 | the pattern anchored at p: a non-quote always matches as a plain group; a quote matches up to the first closing quote that follows at least one character; there is no match exactly when a quote has no such closing quote; trailing whitespace is consumed |
| Tokenizer.FindFrom | src/main/java/org/gatorgradle/config/GatorGradleConfig.java:105 | `find()` from p returns a match at some position at or after p, and it is the anchored match there |
| Tokenizer.FindFromIsFirst | src/main/java/org/gatorgradle/config/GatorGradleConfig.java:105 | `find()`: no position between p and the match found matches; when none is found, no position from p on matches |
| Tokenizer.RemoveQuotesSpec | src/main/java/org/gatorgradle/config/GatorGradleConfig.java:106 | `replace("\"", "")`: no quote remains, every other character stays, and a string without quotes is unchanged |
| Tokenizer.RemoveQuotes | src/main/java/org/gatorgradle/config/GatorGradleConfig.java:106 | `replace("\"", "")`, one character at a time; `RemoveQuotesSpec` and `RemoveQuotesAppend` state what it does |
| Tokenizer.TokensOf | src/main/java/org/gatorgradle/config/GatorGradleConfig.java:104-107 | the tokens of the successive `find()`s over the text not read yet: the group of each match without quotes, then the text after the match; `TokensAt` ties it to `find()` on the whole line |
| Tokenizer.Tokens | src/main/java/org/gatorgradle/config/GatorGradleConfig.java:104-107 | the arguments `lineToCommand` adds for a line; `Tokenize` is the loop proved equal to it |
| Tokenizer.TokensHaveNoQuotes | src/main/java/org/gatorgradle/config/GatorGradleConfig.java:104-107 | no token contains `"` |
| Tokenizer.TokensAt | src/main/java/org/gatorgradle/config/GatorGradleConfig.java:104-107 | `find()` on the whole line from p gives the token of its group, and then the tokens of the text after the match, as if that rest were read on its own |
| Tokenizer.TokensAtEnd | src/main/java/org/gatorgradle/config/GatorGradleConfig.java:104-107 | when `find()` fails from p the rest of the line has no tokens |
| Tokenizer.FindFromShift | src/main/java/org/gatorgradle/config/GatorGradleConfig.java:105 | reading only looks ahead: `find()` from d + i on a line is `find()` from i on the text after d, moved d to the right |
| Tokenizer.MatchAtShift | src/main/java/org/gatorgradle/config/GatorGradleConfig.java:54 | the anchored pattern at d + i is the anchored pattern at i on the text after d, moved d to the right |
| Tokenizer.TokensOfStep | src/main/java/org/gatorgradle/config/GatorGradleConfig.java:105-106 | a `find()` that succeeds yields its group without quotes, and reading resumes where the match ended |
| Tokenizer.Tokenize | src/main/java/org/gatorgradle/config/GatorGradleConfig.java:104-107 | the `while (mtc.find())` loop yields the tokens of the successive matches, in order, none containing `"` |
| Tokenizer.RenderTokens | src/main/java/org/gatorgradle/config/GatorGradleConfig.java:54 | round trip: words written out separated by spaces, quoted when they hold whitespace, tokenize back to those words |
| Tokenizer.ConsTokens | src/main/java/org/gatorgradle/config/GatorGradleConfig.java:104-107 | a rendered word, a space and more rendered words: the word is the first token, then come the tokens of the rest on their own |
| Tokenizer.PieceThenRest | src/main/java/org/gatorgradle/config/GatorGradleConfig.java:104-107 | a piece, a space and text starting with `"` or a non-space: the piece's word is the next token and reading goes on at the text |
| Tokenizer.RenderLast | src/main/java/org/gatorgradle/config/GatorGradleConfig.java:104-107 | a line that is one rendered word yields exactly that word |
| Tokenizer.PieceTokens | src/main/java/org/gatorgradle/config/GatorGradleConfig.java:104-107 | the token read at the start of a rendered piece is its word; reading goes on after one separator, or ends with the line |
| Tokenizer.PieceMatch | src/main/java/org/gatorgradle/config/GatorGradleConfig.java:54 | the match found at the start of a rendered piece covers exactly that piece, plus the one space after it |
| Tokenizer.QuotedGroup | src/main/java/org/gatorgradle/config/GatorGradleConfig.java:54 | a word in quotes is matched by the quoted alternative, through its closing quote |
| Tokenizer.PlainGroupOf | src/main/java/org/gatorgradle/config/GatorGradleConfig.java:54 | a bare word followed by whitespace or the end is matched by the plain alternative, exactly |
| Tokenizer.UnquotePiece | src/main/java/org/gatorgradle/config/GatorGradleConfig.java:106 | removing quotes from a rendered piece gives back its word |
| Tokenizer.RenderStarts | src/main/java/org/gatorgradle/config/GatorGradleConfig.java:54 | rendered words start with `"` or a non-space, so the first alternative cannot swallow the separator before them |
| Tokenizer.RemoveQuotesAppend | src/main/java/org/gatorgradle/config/GatorGradleConfig.java:106 | quote removal distributes over concatenation |
| Tokenizer.TokensOfQuotedExample | src/main/java/org/gatorgradle/config/GatorGradleConfig.java:54 | `foo "bar baz" qux` yields `foo`, `bar baz`, `qux` |
| Tokenizer.TokensOfEmpty | src/main/java/org/gatorgradle/config/GatorGradleConfig.java:104-107 | the empty line yields no tokens |
| Tokenizer.TokensOfBlanks | src/main/java/org/gatorgradle/config/GatorGradleConfig.java:54 | a line of three blanks yields one token, a single blank |
| Tokenizer.TokensOfUnterminatedQuote | src/main/java/org/gatorgradle/config/GatorGradleConfig.java:54 | an unclosed opening quote is skipped: `"abc` yields `abc` |
| Commands.HasSpecialPrefix | src/main/java/org/gatorgradle/config/GatorGradleConfig.java:98 | the test `toLowerCase(Locale.ENGLISH).startsWith("gg: ")`; `SpecialPrefixIff` states it letter by letter |
| Commands.Classify | src/main/java/org/gatorgradle/config/GatorGradleConfig.java:96-108 | the command `lineToCommand` builds, as a value; `LineToCommand` is proved equal to it |
| Commands.SpecialPrefixIff | src/main/java/org/gatorgradle/config/GatorGradleConfig.java:98 | the lower-cased prefix test accepts `g`/`G` twice, then an exact colon and space |
| Commands.SelectedIsSpecial | src/main/java/org/gatorgradle/config/GatorGradleConfig.java:160 | a line selected case-sensitively by `parseCommands` always passes the case-insensitive test of `lineToCommand` |
| Commands.LineToCommand | src/main/java/org/gatorgradle/config/GatorGradleConfig.java:96-109 | the result is a GatorGrader command exactly when the lower-cased line starts with `gg: `; its arguments are the tokens of the line after those 4 characters, otherwise a basic command over the tokens of the whole line; no argument contains `"` |
| Commands.ClassifySpecialRendered | src/main/java/org/gatorgradle/config/GatorGradleConfig.java:98-107 | words written after `gg: ` give a GatorGrader command over exactly those words |
| Commands.ClassifyGenericRendered | src/main/java/org/gatorgradle/config/GatorGradleConfig.java:101-107 | words written out without the prefix give a basic command over exactly those words |
| Commands.ClassifySpecialExample | src/main/java/org/gatorgradle/config/GatorGradleConfig.java:98-100 | `gg: check something` becomes a GatorGrader command with arguments `check`, `something` |
| Commands.ClassifyGenericExample | src/main/java/org/gatorgradle/config/GatorGradleConfig.java:101-103 | `run something` becomes a basic command with arguments `run`, `something` |
| Header.Defaults | src/main/java/org/gatorgradle/config/GatorGradleConfig.java:56-57 | the field initialisers: assignment name `Unnamed Assignment` and build-break flag false |
| Header.Message | src/main/java/org/gatorgradle/config/GatorGradleConfig.java:147-148 | the text of the exception; for a bad `break` value `Failed to parse 'v' to 'break' value` |
| Header.MessageNamesValue | src/main/java/org/gatorgradle/config/GatorGradleConfig.java:147-148 | the bad-`break` message contains the offending value |
| Header.IsMarker | src/main/java/org/gatorgradle/config/GatorGradleConfig.java:124 | a marker line: `content.contains("---")` |
| Header.MarkerNumbers | src/main/java/org/gatorgradle/config/GatorGradleConfig.java:122-127 | the `markers` list: the numbers of the marker lines, in line order; `NoMarkerNumbers`, `MarkerNumbersAppend`, `LastMarkerNumber` and `CollectMarkers` state what it holds |
| Header.NoMarkerNumbers | src/main/java/org/gatorgradle/config/GatorGradleConfig.java:122-127 | there are no marker numbers exactly when no line contains `---` |
| Header.MarkerNumbersAppend | src/main/java/org/gatorgradle/config/GatorGradleConfig.java:122-127 | markers are collected in line order |
| Header.LastMarkerNumber | src/main/java/org/gatorgradle/config/GatorGradleConfig.java:128-129 | the end of the header is the number of the last line containing `---` |
| Header.CollectMarkers | src/main/java/org/gatorgradle/config/GatorGradleConfig.java:122-127 | the marker loop collects exactly the numbers of the marker lines, in order |
| Header.LinesBefore | src/main/java/org/gatorgradle/config/GatorGradleConfig.java:131-132 | the stream filter of the header pass: lines numbered below the end of the header that are not markers, in order |
| Header.HeaderLines | src/main/java/org/gatorgradle/config/GatorGradleConfig.java:128-132 | the lines the header pass reads: none without a marker, otherwise `LinesBefore` the last marker |
| Header.LinesBeforeMembers | src/main/java/org/gatorgradle/config/GatorGradleConfig.java:131-132 | a line is read exactly when it is one of the lines, numbered below the end of the header, and not a marker |
| Header.LinesBeforeAppend | src/main/java/org/gatorgradle/config/GatorGradleConfig.java:131-132 | the header filter keeps line order |
| Header.NonMarkersMembers | src/main/java/org/gatorgradle/config/GatorGradleConfig.java:132 | keeps exactly the lines not containing `---` |
| Header.NonMarkersOfPlain | src/main/java/org/gatorgradle/config/GatorGradleConfig.java:132 | lines without markers are all kept |
| Header.LinesBeforeAllBelow | src/main/java/org/gatorgradle/config/GatorGradleConfig.java:129-132 | when every line is numbered below the end of the header, only markers are dropped |
| Header.LinesBeforeNoneBelow | src/main/java/org/gatorgradle/config/GatorGradleConfig.java:129-132 | lines numbered at or after the end of the header are never read |
| Header.HeaderIsBeforeLastMarker | src/main/java/org/gatorgradle/config/GatorGradleConfig.java:128-132 | with last marker m, the header is exactly the non-marker lines before m; nothing after m is read |
| Header.SplitAtMarker | src/main/java/org/gatorgradle/config/GatorGradleConfig.java:129-132 | when every line before m is numbered below m and none after it is, reading up to m gives the non-marker lines before m |
| Header.EntryKey | src/main/java/org/gatorgradle/config/GatorGradleConfig.java:134-135 | `spl[0].trim()`, when the split line has a value field |
| Header.EntryValue | src/main/java/org/gatorgradle/config/GatorGradleConfig.java:134-136 | `spl[1].trim()`: the trimmed text between the first and second colon, when it exists |
| Header.IsTrueLiteral | src/main/java/org/gatorgradle/config/GatorGradleConfig.java:142 | `val.matches("[Tt][Rr][Uu][Ee]")`: the value is `true` with each letter in either case |
| Header.IsFalseLiteral | src/main/java/org/gatorgradle/config/GatorGradleConfig.java:144 | `val.matches("[Ff][Aa][Ll][Ss][Ee]")`: the value is `false` with each letter in either case |
| Header.ApplyEntry | src/main/java/org/gatorgradle/config/GatorGradleConfig.java:134-153 | one header line fails exactly when it has no value field, or its key is `break` and its value is neither `true` nor `false` in any case; `name` sets the assignment name to the value; a key other than `name` keeps the name; a key other than `break` keeps the flag |
| Header.EntryFields | src/main/java/org/gatorgradle/config/GatorGradleConfig.java:134-136 | fields 0 and 1 of `k:v…` are `k` and `v`, whether `v` is empty or not, as long as something other than colons follows |
| Header.NameEntry | src/main/java/org/gatorgradle/config/GatorGradleConfig.java:134-140 | `name: v` sets the assignment name to the trimmed text up to the next colon, and nothing else; that text may be empty (`name::X` gives the empty name) |
| Header.BreakEntry | src/main/java/org/gatorgradle/config/GatorGradleConfig.java:141-150 | `break: v` sets the flag to true or false when v is `true` or `false` in any case; otherwise it fails naming the trimmed v, the empty value of `break::true` included |
| Header.UnknownKeyEntry | src/main/java/org/gatorgradle/config/GatorGradleConfig.java:151-152 | any other key changes neither setting, whether its value field is empty or not |
| Header.MissingValueEntry | src/main/java/org/gatorgradle/config/GatorGradleConfig.java:134-136 | a header line without a colon, or with nothing but colons after the key, fails with an index-out-of-bounds error |
| Header.ApplyAll | src/main/java/org/gatorgradle/config/GatorGradleConfig.java:131-154 | the `forEach` over the header lines: each line applied in order, the first failure stopping the pass with the settings reached; `ApplyAllAppend` and the `Last…Wins` lemmas state its properties |
| Header.ApplyAllAppend | src/main/java/org/gatorgradle/config/GatorGradleConfig.java:131-154 | lines apply in order: a run over a + b is a run over a, then, unless a failed, a run over b from where a stopped |
| Header.ApplyAllKeepsName | src/main/java/org/gatorgradle/config/GatorGradleConfig.java:137-153 | a successful run over lines without key `name` keeps the assignment name |
| Header.ApplyAllKeepsBreak | src/main/java/org/gatorgradle/config/GatorGradleConfig.java:137-153 | a successful run over lines without key `break` keeps the flag |
| Header.LastNameWins | src/main/java/org/gatorgradle/config/GatorGradleConfig.java:138-140 | the last `name` line decides the assignment name |
| Header.LastBreakWins | src/main/java/org/gatorgradle/config/GatorGradleConfig.java:141-150 | the last `break` line decides the flag: true exactly when its value is `true` in any case |
| Header.HeaderSkipStep | src/main/java/org/gatorgradle/config/GatorGradleConfig.java:131-133 | a line the stream filter drops leaves the header run as it was |
| Header.HeaderApplyStep | src/main/java/org/gatorgradle/config/GatorGradleConfig.java:133-153 | a read line that applies moves the header run on to the settings it produces |
| Header.HeaderFailStep | src/main/java/org/gatorgradle/config/GatorGradleConfig.java:133-153 | a read line that fails ends the whole header pass, with the settings reached before it and that failure |
| Header.FailureStays | src/main/java/org/gatorgradle/config/GatorGradleConfig.java:131-154 | once the lines read so far have thrown, the later lines change nothing: the pass's outcome is the failure |
| Header.ApplyOne | src/main/java/org/gatorgradle/config/GatorGradleConfig.java:133-153 | a single header line either applies or fails with its own error, leaving the settings it started with |
| Header.ParseHeaderSpec | src/main/java/org/gatorgradle/config/GatorGradleConfig.java:121-156 | what `parseHeader` does to the settings: `ApplyAll` over `HeaderLines`; `ParseHeader` is proved equal to it |
| Header.NoMarkerKeepsSettings | src/main/java/org/gatorgradle/config/GatorGradleConfig.java:122-128 | without a marker line the header pass changes neither setting and does not fail |
| Header.ParseHeaderBeforeLastMarker | src/main/java/org/gatorgradle/config/GatorGradleConfig.java:128-154 | with markers, the header pass applies exactly the non-marker lines before the last marker, in order |
| Config.IsCommandLine | src/main/java/org/gatorgradle/config/GatorGradleConfig.java:160 | the case-sensitive selection `startsWith("gg: ")` |
| Config.CommandLines | src/main/java/org/gatorgradle/config/GatorGradleConfig.java:159-160 | the selected lines, in order |
| Config.CommandLinesMembers | src/main/java/org/gatorgradle/config/GatorGradleConfig.java:160 | selects exactly the lines whose text starts with `gg: `, case-sensitively |
| Config.CommandLinesWellNumbered | src/main/java/org/gatorgradle/config/GatorGradleConfig.java:159-162 | the selected lines keep ascending line numbers |
| Config.CommandLinesAppend | src/main/java/org/gatorgradle/config/GatorGradleConfig.java:159-160 | the selection keeps line order |
| Config.CommandsFor | src/main/java/org/gatorgradle/config/GatorGradleConfig.java:159-161 | one command per selected line, the k-th built by `lineToCommand` from the k-th selected line |
| Config.CommandsForOne | src/main/java/org/gatorgradle/config/GatorGradleConfig.java:159-161 | one line gives the command `lineToCommand` builds for it when it is a `gg: ` line, and nothing otherwise |
| Config.NoCommandLines | src/main/java/org/gatorgradle/config/GatorGradleConfig.java:160 | without `gg: ` lines nothing is selected |
| Config.CommandsForSingle | src/main/java/org/gatorgradle/config/GatorGradleConfig.java:159-162 | when only one line is a `gg: ` line, it gives the only command |
| Config.CommandsForAppend | src/main/java/org/gatorgradle/config/GatorGradleConfig.java:159-162 | commands are built in line order |
| Config.CommandsAreSpecial | src/main/java/org/gatorgradle/config/GatorGradleConfig.java:160-161 | every command `parseCommands` builds is a GatorGrader command over the tokens after `gg: ` |
| Config.Appended | src/main/java/org/gatorgradle/config/GatorGradleConfig.java:191-197 | appending commands creates the list if it is null and adds them after the old ones; appending nothing leaves the list as it was, null included |
| Config.AppendedTwice | src/main/java/org/gatorgradle/config/GatorGradleConfig.java:191-197 | appending a, then b, is appending a + b |
| Config.ParseSpec | src/main/java/org/gatorgradle/config/GatorGradleConfig.java:170-183 | what `parse` does to the state: filter, header pass, then, unless the header threw, the command pass appended to the old list |
| Config.ParseAppendsCommandLines | src/main/java/org/gatorgradle/config/GatorGradleConfig.java:170-178 | a parse that succeeds leaves the old commands followed by one GatorGrader command per retained `gg: ` line, in ascending line-number order |
| Config.ParseWithoutMarkerKeepsSettings | src/main/java/org/gatorgradle/config/GatorGradleConfig.java:170-178 | a file without `---` in any retained line (comment lines may hold one) leaves both settings as they were, and the parse does not fail |
| Config.Descriptions | src/main/java/org/gatorgradle/config/GatorGradleConfig.java:201 | one description per command, in stored order |
| Config.SummaryAfterWith | src/main/java/org/gatorgradle/config/GatorGradleConfig.java:191-202 | after one more `with`, `toString` is the old text, ` -> `, and the new description (or just the description when the list was empty) |
| Config.GatorGradleConfig.ForFile | src/main/java/org/gatorgradle/config/GatorGradleConfig.java:56-75 | a config made for a file has the default settings (`Unnamed Assignment`, no build break), that file, and a null command list |
| Config.GatorGradleConfig.constructor | src/main/java/org/gatorgradle/config/GatorGradleConfig.java:84-88 | the given settings and a copy of the given commands |
| Config.GatorGradleConfig.With | src/main/java/org/gatorgradle/config/GatorGradleConfig.java:191-197 | appends the command at the end (creating the list if null), keeps every earlier command, grows the size by exactly 1, returns this same config, and changes nothing else |
| Config.GatorGradleConfig.Size | src/main/java/org/gatorgradle/config/GatorGradleConfig.java:216-218 | the number of commands, or the null-list failure |
| Config.GatorGradleConfig.ShouldBreakBuild | src/main/java/org/gatorgradle/config/GatorGradleConfig.java:208-210 | the build-break flag |
| Config.GatorGradleConfig.GetAssignmentName | src/main/java/org/gatorgradle/config/GatorGradleConfig.java:212-214 | the assignment name |
| Config.GatorGradleConfig.ToString | src/main/java/org/gatorgradle/config/GatorGradleConfig.java:199-202 | the descriptions of the commands, in stored order, joined by ` -> `; the null-list failure when there is no list |
| Config.GatorGradleConfig.ApplyLine | src/main/java/org/gatorgradle/config/GatorGradleConfig.java:133-153 | the `forEach` body updates the settings as `ApplyEntry` says, or fails without changing them, and leaves the commands and file alone |
| Config.GatorGradleConfig.ParseHeader | src/main/java/org/gatorgradle/config/GatorGradleConfig.java:121-156 | the settings and failure afterwards are those of `ParseHeaderSpec` on the old settings; the commands and file are unchanged |
| Config.GatorGradleConfig.ParseCommands | src/main/java/org/gatorgradle/config/GatorGradleConfig.java:158-165 | the list afterwards is the old list with `CommandsFor(lines)` appended; the settings and file are unchanged |
| Config.GatorGradleConfig.Parse | src/main/java/org/gatorgradle/config/GatorGradleConfig.java:170-183 | the settings, list and failure afterwards are those of `ParseSpec` on the old state and the file's lines |
| Config.Registry.constructor | src/main/java/org/gatorgradle/config/GatorGradleConfig.java:29 | no config exists at first |
| Config.Registry.Create | src/main/java/org/gatorgradle/config/GatorGradleConfig.java:49-52 | a fresh config for the file, with default settings and a null list, becomes the current one and is returned |
| Config.Registry.Get | src/main/java/org/gatorgradle/config/GatorGradleConfig.java:36-41 | the current config, or the "not created" failure |
| ConfigExamples.NoDashNoMarker | src/main/java/org/gatorgradle/config/GatorGradleConfig.java:124 | a line without `-` is not a marker |
| ConfigExamples.FilterOfSample | src/main/java/org/gatorgradle/config/GatorGradleConfig.java:172-176 | the four sample lines are all kept and numbered 1 to 4 |
| ConfigExamples.SampleHeader | src/main/java/org/gatorgradle/config/GatorGradleConfig.java:121-156 | the sample header sets the name to `X` and the flag to true |
| ConfigExamples.SampleEntries | src/main/java/org/gatorgradle/config/GatorGradleConfig.java:133-153 | `name: X` then `break: true` from the defaults give `X` and true |
| ConfigExamples.NameLine | src/main/java/org/gatorgradle/config/GatorGradleConfig.java:134-140 | `name: X` from the defaults gives name `X` and keeps the flag |
| ConfigExamples.BreakLine | src/main/java/org/gatorgradle/config/GatorGradleConfig.java:141-143 | `break: true` sets the flag and keeps the name |
| ConfigExamples.EmptyNameLine | src/main/java/org/gatorgradle/config/GatorGradleConfig.java:134-140 | `name::X` sets the name to the empty text between the two colons |
| ConfigExamples.EmptyBreakLine | src/main/java/org/gatorgradle/config/GatorGradleConfig.java:141-149 | `break::true` fails naming the empty value |
| ConfigExamples.ApplyTwo | src/main/java/org/gatorgradle/config/GatorGradleConfig.java:131-154 | two lines that each apply run one after the other |
| ConfigExamples.AppendedToNone | src/main/java/org/gatorgradle/config/GatorGradleConfig.java:191-197 | appending commands to a null list gives exactly those commands |
| ConfigExamples.SampleCommands | src/main/java/org/gatorgradle/config/GatorGradleConfig.java:158-165 | the sample's one `gg: ` line is its one command |
| ConfigExamples.ParseSample | src/main/java/org/gatorgradle/config/GatorGradleConfig.java:170-183 | parsing the sample file gives name `X`, build break on, and the one command `check something` |
| ConfigExamples.ParseSpecOfParts | src/main/java/org/gatorgradle/config/GatorGradleConfig.java:177-178 | a parse is the header pass, then, when it did not fail, the command pass appending after the old list |
| ConfigExamples.CommentedMarker | src/main/java/org/gatorgradle/config/GatorGradleConfig.java:170-177 | a `---` that only occurs in a `#` comment line is dropped by the filter, so the parse keeps both settings |
| ConfigExamples.ParseBadBreak | src/main/java/org/gatorgradle/config/GatorGradleConfig.java:141-149 | `break: maybe` above a marker stops the parse with a failure naming `maybe` |
| ConfigExamples.BadBreakLine | src/main/java/org/gatorgradle/config/GatorGradleConfig.java:141-149 | `break: maybe` fails naming `maybe` |
| ConfigExamples.BadBreakHeader | src/main/java/org/gatorgradle/config/GatorGradleConfig.java:121-156 | a `break: maybe` header line before a marker makes the header pass fail naming `maybe` |

## Left out

- Reading the file (`Files.lines`, try-with-resources) and the `IOException` → `GradleException` path: this is I/O. `parse` takes the file's lines as a `seq<string>`, and the `File` is kept only as a path string.
- `Console.error` for an unknown header key: a logging side effect. The model ignores the key and changes nothing.
- The command classes `BasicCommand` and `GatorGraderCommand` (`with`, `outputToSysOut`, `getDescription`) are not part of this model. A command is a datatype holding its kind and arguments. Both kinds are built with console output off, so that flag is not recorded. `getDescription` is a parameter of `ToString`.
- `iterator()`: in the model the command list is the `gradingCommands` field itself.
- The Java regex engine: the tokenizer is a hand-written scanner for the one pattern at line 54, and the `break` literals are matched letter by letter.
- Text.Lower: models `toLowerCase(Locale.ENGLISH)` on ASCII letters only and leaves every other character unchanged. Its one use is the `gg: ` prefix test, and no non-ASCII character lower-cases to `g`, `:` or a space, so that test is unaffected.
- Characters are Unicode scalar values, not UTF-16 code units. The parser does not depend on the difference.
- The text of an `ArrayIndexOutOfBoundsException`: the model keeps only the index and the array length.
- Line numbers are unbounded `int`s. The source's `AtomicInteger` would wrap after 2^31 - 1 retained lines.
- The public constructor gives a config with a null `file` in Java, so `parse()` on it throws a NullPointerException at line 171. The model stores the empty path there and does not model that exception.
- The singleton `create`/`get` is the `Registry` object rather than a static field, so concurrent access to it is not modelled.
