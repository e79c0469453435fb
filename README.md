# dnscrypt-proxy `block_name` plugin, modelled in Dafny

The `block_name` plugin of dnscrypt-proxy refuses DNS queries whose name
matches one of the rules in a rule file. Each non-blank, non-comment line of
that file becomes one rule. It can be:

- a **suffix** rule (`example.com`, `.example.com`, `*.example.com`), held
  reversed in a radix tree;
- a **prefix** rule (`ads*`), held in a second radix tree;
- a **substring** rule (`*ads*`), held in a list;
- a **glob pattern** (`ad?.example.com`, `a[0-9]*.com`), held in a list.

A line may end in `@name`, naming a weekly time window. When a query arrives,
`Eval` lowercases its single question name and tries four stages in order:
the suffix tree, the prefix tree, the substrings and the patterns. The first
stage that matches rejects the query.

The model has a module per concern:

- `Text` holds the string helpers the plugin relies on: splitting, trimming
  white space, ASCII lower-casing, reversal, containment and the last index of
  a character.
- `Clock` covers `daySecsFromStr`, `parseTimeRanges` and `parseWeeklyRanges`,
  the parsing of the time windows.
- `Glob` is the pattern language of Go's `filepath.Match`: its parser, with
  the library's malformed-pattern rules, and the library's matcher. That
  matcher cuts the pattern into chunks at its stars and places each chunk
  after a star at the first position where it fits, never moving it back.
  On names without '/', this gives the same answer as the textbook
  backtracking reading (`Glob.MatchAgrees`). On names with a '/' it can
  differ: `*[a/]*x` does not match `a/x` (`Glob.LeftmostExample`).
- `Radix` models the immutable radix tree as a finite map with `Insert` and
  `LongestPrefix`.
- `Rules` gives the meaning of one rule line (`ClassifyLine`, including
  `isGlobCandidate`) and the stores a file compiles to.
- `Matching` holds the stage functions of `Eval` and the properties of the
  decision.
- `BlockName` holds the plugin object. It is a class whose `Init` runs the
  line loop and whose `Eval` sets the plugin state's action.

Some behaviour is modelled as the code has it, where its comments or a
reading of its intent would suggest otherwise:

- `daySecsFromStr` uses `strconv.Atoi`, so it also accepts `+7:05`, `07:5`
  and `-0:00`. Only the hour range 0..23 and the minute range 0..59 are
  enforced (`Clock.DaySecsAccepts`).
- `parseTimeRanges` checks both ends of every pair but never appends a range,
  so it always returns an empty list. `parseWeeklyRanges` therefore leaves
  every weekday empty (`Clock.ParseTimeRanges`, `Clock.ParseWeeklyRanges`).
- Inside `Init`, the time-window lookup declares a second `timeRange` local
  to its block. The value inserted into the trees is therefore always nil
  (`BlockName.PluginBlockName.NoTimeRanges`).
- `Init` rebuilds both trees, but substring and pattern rules are appended to
  the lists already held (`BlockName.PluginBlockName.Init`).
- The suffix stage retries only once, on the parent domain of the name. A
  name two or more labels below the stored suffix can escape a shorter rule
  when a longer, non-matching rule shadows it. For example, `com` and
  `b.evil.com` do not block `x.ab.evil.com` (`Matching.SuffixStageRetriesOnce`).
- The `len(line) < 2` test of the prefix branch can never fire. A
  one-character line ending in `*` also starts with `*`, so the substring
  branch takes it first and refuses it (`Rules.TooShortLine`).

## Model

| member | source | states |
|---|---|---|
| Clock.Atoi | dnscrypt-proxy/plugin_block_name.go:61-67 | a parsed value is in the int64 range and came from a string starting with a digit or a sign |
| Clock.AtoiSplit | dnscrypt-proxy/plugin_block_name.go:61-67 | an accepted string is an optional sign followed by digits whose value is the magnitude of the result, negative only after a '-' |
| Clock.AtoiSpelling | dnscrypt-proxy/plugin_block_name.go:61-67 | every string Atoi accepts is an optional sign, some leading zeros and the decimal spelling of the value's magnitude |
| Clock.AtoiLeadingZeros | dnscrypt-proxy/plugin_block_name.go:61-67 | conversely, every such spelling whose signed value is within the int64 range is accepted, with the value negated after a '-': magnitudes up to 2^63 after a '-', including -9223372036854775808, and up to 2^63 - 1 otherwise |
| Clock.DigitsValueDecimal | dnscrypt-proxy/plugin_block_name.go:61-67 | the decimal spelling of a number has that number as its value |
| Clock.DigitsValueZeros | dnscrypt-proxy/plugin_block_name.go:61-67 | leading zeros do not change the value of a digit string |
| Clock.CanonicalZeros | dnscrypt-proxy/plugin_block_name.go:61-67 | a digit string is a number of leading zeros, given as the result, followed by the decimal spelling of its value |
| Clock.SpellingDigits | dnscrypt-proxy/plugin_block_name.go:61-67 | leading zeros and a decimal spelling form a digit string whose value is the spelled number |
| Clock.DigitsCanonical | dnscrypt-proxy/plugin_block_name.go:61-67 | every digit string is leading zeros followed by the decimal spelling of its value |
| Clock.AtoiPad2 | dnscrypt-proxy/plugin_block_name.go:61-67 | a two-digit field, zero-padded below ten, reads as its number |
| Clock.AtoiDecimal | dnscrypt-proxy/plugin_block_name.go:61-67 | the decimal spelling of a number, bare or with a `+` or `-` sign, parses back to that number |
| Clock.DaySecsFromStr | dnscrypt-proxy/plugin_block_name.go:56-70 | a failure gives -1 and the syntax-error message naming the string; a success is a whole minute within the day, 0..86340 seconds |
| Clock.DaySecsAccepts | dnscrypt-proxy/plugin_block_name.go:56-70 | a time string is accepted exactly when it has a single ':' with an hour field in 0..23 before it and a minute field in 0..59 after it, and then the result is (hours*60+minutes)*60 |
| Clock.ColonFields | dnscrypt-proxy/plugin_block_name.go:57-58 | splitting on ':' gives two fields exactly when there is a single ':', and these are the two sides of it |
| Clock.DaySecsFormatClock | dnscrypt-proxy/plugin_block_name.go:56-70 | every HH:MM clock time within the day parses to its number of seconds |
| Clock.DaySecsOutOfRange | dnscrypt-proxy/plugin_block_name.go:62-67 | an HH:MM string with an hour above 23 or a minute above 59 is refused with the syntax error |
| Clock.DaySecsCanonical | dnscrypt-proxy/plugin_block_name.go:56-70 | every accepted time string means the same as the canonical HH:MM spelling of its result |
| Clock.PairError | dnscrypt-proxy/plugin_block_name.go:75-82 | a pair's error is the error of its start time if that fails, else the error of its end time |
| Clock.PairErrorNone | dnscrypt-proxy/plugin_block_name.go:75-82 | a pair has no error exactly when both its start time and its end time parse |
| Clock.SplitMinutes | dnscrypt-proxy/plugin_block_name.go:69 | a whole number of minutes within the day is an hour below 24 and a minute below 60, and rebuilds the same number of seconds |
| Clock.FirstRangeError | dnscrypt-proxy/plugin_block_name.go:74-86 | defines the error the loop returns: that of the first pair to fail, scanning in order; its properties are FirstRangeErrorSpec |
| Clock.FirstRangeErrorSpec | dnscrypt-proxy/plugin_block_name.go:74-86 | the list is accepted exactly when every pair is; otherwise the error is that of the first failing pair |
| Clock.FirstRangeErrorNone | dnscrypt-proxy/plugin_block_name.go:74-86 | no error exactly when every pair parses |
| Clock.FirstRangeErrorFirst | dnscrypt-proxy/plugin_block_name.go:74-82 | an error is the error of a failing pair with no failing pair before it |
| Clock.ParseTimeRanges | dnscrypt-proxy/plugin_block_name.go:72-88 | the loop returns an empty range list and the first pair's error, or none |
| Clock.FirstDayError | dnscrypt-proxy/plugin_block_name.go:93-104 | defines the error of the weekday loop: that of the first listed weekday, Sunday first, whose list fails; its properties are FirstDayErrorSpec |
| Clock.FirstDayErrorSpec | dnscrypt-proxy/plugin_block_name.go:93-104 | weekly parsing fails exactly when some listed weekday, taken Sunday first, has a bad range list, and then it fails with the first such day's error |
| Clock.FirstDayErrorNext | dnscrypt-proxy/plugin_block_name.go:94-101 | a listed day with a bad list stops the loop with its error; an absent or good day moves on to the next |
| Clock.ParseWeeklyRanges | dnscrypt-proxy/plugin_block_name.go:90-105 | seven weekday slots, all empty, and the error of the first weekday whose list fails |
| Text.IsSpace | dnscrypt-proxy/plugin_block_name.go:124 | the characters `unicode.IsSpace` accepts: the Latin-1 white space and the other code points with the White_Space property |
| Text.TrimLeft | dnscrypt-proxy/plugin_block_name.go:124 | what is left is a suffix of the input, everything removed is white space, and what is left does not start with any |
| Text.TrimRight | dnscrypt-proxy/plugin_block_name.go:124 | what is left is a prefix of the input, everything removed is white space, and what is left does not end with any |
| Text.TrimSpaceSlice | dnscrypt-proxy/plugin_block_name.go:124 | what the two trims leave is a slice of the line with only white space before and after it |
| Text.TrimSpaceEnds | dnscrypt-proxy/plugin_block_name.go:124 | what the two trims leave has no white space at either end, is the whole line when the line has none at its ends, and is empty for an all-space line |
| Text.TrimSpace | dnscrypt-proxy/plugin_block_name.go:124 | the result is a slice of the line with only white space before and after it, it neither starts nor ends with white space, a string without surrounding space is kept, and an all-space line becomes empty |
| Text.Split | dnscrypt-proxy/plugin_block_name.go:123 | the pieces hold no separator and join back to the input |
| Text.SplitJoin | dnscrypt-proxy/plugin_block_name.go:123 | splitting what Join built gives back the pieces |
| Text.SplitNoSeparator | dnscrypt-proxy/plugin_block_name.go:128-136 | a line without '@' is a single piece |
| Text.SplitCons | dnscrypt-proxy/plugin_block_name.go:128-133 | a first piece without the separator is split off at the separator |
| Text.SplitTwo | dnscrypt-proxy/plugin_block_name.go:128-133 | a string with one separator splits into the two sides of it |
| Text.SplitCount | dnscrypt-proxy/plugin_block_name.go:128-136 | splitting gives one piece more than there are separators |
| Text.LowerChar | dnscrypt-proxy/plugin_block_name.go:181 | an upper-case ASCII letter becomes the lower-case letter at the same place in the alphabet, every other character is kept, no upper-case letter is left, and white space stays white space |
| Text.ToLower | dnscrypt-proxy/plugin_block_name.go:181 | the result has the length of the input, holds no upper-case letter, and leaves a lower-case string unchanged |
| Text.Reverse | dnscrypt-proxy/plugin_block_name.go:190 | the character at k is the input's character at the mirrored position |
| Text.ReverseLowercase | dnscrypt-proxy/plugin_block_name.go:190 | reversing a lower-case text keeps it lower-case, so the suffix tree's keys stay lower-case |
| Text.ReverseInvolutive | dnscrypt-proxy/plugin_block_name.go:190 | reversing twice gives back the string, so a stored suffix reads back as written |
| Text.PrefixOfReverse | dnscrypt-proxy/plugin_block_name.go:227-230 | a prefix of the reversed name is exactly the reverse of a suffix of the name |
| Text.Contains | dnscrypt-proxy/plugin_block_name.go:253 | true exactly when the substring occurs at some position |
| Text.LastIndexOf | dnscrypt-proxy/plugin_block_name.go:234 | -1 or a position holding the character, with no occurrence after it |
| Rules.GlobMarkerFrom | dnscrypt-proxy/plugin_block_name.go:300-307 | true exactly when some position from i on holds a glob marker |
| Rules.IsGlobCandidate | dnscrypt-proxy/plugin_block_name.go:299-308 | true exactly when the line holds `?` or `[` anywhere, or a `*` that is neither first nor last |
| Rules.TrimDot | dnscrypt-proxy/plugin_block_name.go:166 | a text starting with '.' is that '.' followed by the result, and any other text is kept as it is |
| Rules.Strip | dnscrypt-proxy/plugin_block_name.go:137-167 | defines the marker handling of the four branches: a glob candidate is a pattern when it is at least two characters long and parses, `*x*` is a substring of at least one character, `x*` a prefix, and anything else a suffix with one leading `*` and then one leading '.' dropped; RenderTextClassified and the lemmas after it state its properties |
| Rules.ClassifyText | dnscrypt-proxy/plugin_block_name.go:137-181 | a rule text is accepted non-empty and lower-case, with its window name; a refused text is a syntax error or an empty rule |
| Rules.ClassifyLine | dnscrypt-proxy/plugin_block_name.go:124-181 | every rule a line yields has a non-empty, lower-case text |
| Rules.UnexpectedAtIff | dnscrypt-proxy/plugin_block_name.go:124-136 | a line is refused for an unexpected '@' exactly when, trimmed, it is neither blank nor a comment and holds two or more '@' |
| Rules.ClassifyWithoutAt | dnscrypt-proxy/plugin_block_name.go:128-136 | a trimmed line without '@' is classified as its whole text with no window |
| Rules.ClassifyWithAt | dnscrypt-proxy/plugin_block_name.go:128-133 | `text@window` is classified as the text with that window name |
| Rules.SyntaxErrorLine | dnscrypt-proxy/plugin_block_name.go:140-160 | a line whose markers cannot be stripped is refused as a syntax error |
| Rules.EmptyRuleLine | dnscrypt-proxy/plugin_block_name.go:168-171 | a line that strips to nothing is refused as an empty rule |
| Rules.TooShortLine | dnscrypt-proxy/plugin_block_name.go:140-160 | `*`, `**` and `?` are refused as syntax errors |
| Rules.EmptyRuleLines | dnscrypt-proxy/plugin_block_name.go:161-171 | `*.` and `.` strip to an empty suffix and are refused |
| Rules.RenderTextClassified | dnscrypt-proxy/plugin_block_name.go:137-167 | stripping the markers from a rule written back gives its kind and text |
| Rules.RenderRoundTrip | dnscrypt-proxy/plugin_block_name.go:124-181 | every rule a line can yield, written back as a line, is read as that same rule |
| Rules.RenderRoundTripBare | dnscrypt-proxy/plugin_block_name.go:124-136 | a rule with no window, written back, is a line read as that rule |
| Rules.RenderRoundTripWindow | dnscrypt-proxy/plugin_block_name.go:128-133 | a rule with a window, written back as `text@window`, is read as that rule |
| Rules.RenderTextShape | dnscrypt-proxy/plugin_block_name.go:124-136 | a rule written back is a trimmed, non-comment line without '@' |
| Rules.SuffixSpellings | dnscrypt-proxy/plugin_block_name.go:161-167 | `t`, `.t` and `*.t` are the same suffix rule |
| Rules.SuffixSpellingsStarred | dnscrypt-proxy/plugin_block_name.go:161-167 | `*.t` is the suffix rule t |
| Rules.BareSuffix | dnscrypt-proxy/plugin_block_name.go:161-167 | a line without markers is a suffix rule, with one leading '.' dropped |
| Rules.Store | dnscrypt-proxy/plugin_block_name.go:182-193 | defines the `switch`: the text goes to the store of the rule's kind, a suffix reversed, and the other stores are kept; CompileSnoc ties it to Compile |
| Rules.LoadLine | dnscrypt-proxy/plugin_block_name.go:123-194 | defines one pass of the loop body: an accepted line is stored and any other line is skipped; StepCompiles ties it to Compile |
| Rules.Load | dnscrypt-proxy/plugin_block_name.go:123-194 | defines the loop over the lines in file order; LoadCompiles states what it yields |
| Rules.Compile | dnscrypt-proxy/plugin_block_name.go:182-190 | defines the stores a list of rules gives: key sets for prefixes and reversed suffixes, lists in order for substrings and patterns; TextsOfMembers and KeySetMembers describe their contents |
| Rules.RulesOf | dnscrypt-proxy/plugin_block_name.go:123-171 | defines the accepted rules of a file's lines, in file order, refused and skipped lines dropped; RulesOfSnoc and LoadCompiles state its properties |
| Rules.TextsOf | dnscrypt-proxy/plugin_block_name.go:182-190 | a store never holds more texts than there are rules |
| Rules.TextsOfMembers | dnscrypt-proxy/plugin_block_name.go:182-190 | a text is in the store of a kind exactly when some rule of that kind has it |
| Rules.KeySetMembers | dnscrypt-proxy/plugin_block_name.go:188-190 | the prefix tree's keys are the prefix texts, and the suffix tree's keys are the reverses of the suffix texts |
| Rules.RulesOfSnoc | dnscrypt-proxy/plugin_block_name.go:123-194 | one more line adds its rule, if it has one, after the others |
| Rules.TextsOfSnoc | dnscrypt-proxy/plugin_block_name.go:182-190 | one more rule adds its text to the store of its kind only |
| Rules.KeySetSnoc | dnscrypt-proxy/plugin_block_name.go:188-190 | one more text adds exactly that key, or its reverse, to a tree's key set |
| Rules.LoadSnoc | dnscrypt-proxy/plugin_block_name.go:123-194 | loading one more line applies that line to what was loaded |
| Rules.LoadStep | dnscrypt-proxy/plugin_block_name.go:123-194 | one turn of the loop applies line n to what the first n lines loaded |
| Rules.CompileSnoc | dnscrypt-proxy/plugin_block_name.go:182-190 | the stores that a list of rules compiles to grow by one rule exactly as the `switch` stores it |
| Rules.CompileSnocKeys | dnscrypt-proxy/plugin_block_name.go:187-190 | the same, for a prefix or suffix rule |
| Rules.CompileSnocTexts | dnscrypt-proxy/plugin_block_name.go:183-186 | the same, for a substring or pattern rule |
| Rules.StepCompiles | dnscrypt-proxy/plugin_block_name.go:123-194 | storing a line's rule, or skipping the line, keeps the stores equal to the compiled rules |
| Rules.LoadCompilesStep | dnscrypt-proxy/plugin_block_name.go:123-194 | one more line keeps the loaded stores equal to the compiled rules |
| Rules.LoadCompiles | dnscrypt-proxy/plugin_block_name.go:123-194 | the line-by-line load of a file gives the stores its accepted rules compile to, in file order |
| Rules.LoadAll | dnscrypt-proxy/plugin_block_name.go:123-194 | after the last line, the loop has loaded the whole file |
| Glob.Parse | dnscrypt-proxy/plugin_block_name.go:142 | defines the reading of a pattern into tokens: `*`, `?`, `\\x`, classes and literals, None for a malformed pattern; ParsePlain and the examples state its results |
| Glob.Valid | dnscrypt-proxy/plugin_block_name.go:142-143 | defines the load-time test: the whole pattern parses, so `filepath.Match` gives no error |
| Glob.Match | dnscrypt-proxy/plugin_block_name.go:261 | defines `filepath.Match`'s boolean: false for a malformed pattern, else the chunk-by-chunk loop; MatchAgrees relates it to the reference |
| Glob.TokenMatches | dnscrypt-proxy/plugin_block_name.go:261 | defines `matchChunk`'s test of one character: a literal matches itself, `?` anything but '/', a class a character in its ranges (outside them when negated); ChunkFitsStep and SingleChunk use it |
| Glob.ChunkFits | dnscrypt-proxy/plugin_block_name.go:261 | defines a successful `matchChunk`: every token of the star-free chunk matches the next character of the name; FirstFitIsFirst and ShellChunk state its properties |
| Glob.FitsAt | dnscrypt-proxy/plugin_block_name.go:261 | defines the loop's acceptance of a chunk: it fits, and the last chunk also ends the name; FirstFitIsFirst and StepLeading state its properties |
| Glob.GoMatchFrom | dnscrypt-proxy/plugin_block_name.go:261 | defines the `Pattern:` loop of `filepath.Match` from a token and a character on: one Step per chunk until the pattern is used up, and then the name must be used up too; GoMatchAgrees ties it to the reference |
| Glob.GoMatch | dnscrypt-proxy/plugin_block_name.go:261 | defines the loop from the start of the pattern and the name; MatchAgrees, SingleChunk and LeftmostExample state its results |
| Glob.ShellFrom | dnscrypt-proxy/plugin_block_name.go:261 | defines the reference reading: a star takes any run without '/', every other token one matching character |
| Glob.StarsEnd | dnscrypt-proxy/plugin_block_name.go:261 | the end of a run of stars lies between the start and the end of the pattern, and is not a star |
| Glob.StarsEndStars | dnscrypt-proxy/plugin_block_name.go:261 | everything from the start up to the end of the run is a star |
| Glob.ChunkEnd | dnscrypt-proxy/plugin_block_name.go:261 | a chunk ends at the end of the pattern or at a star |
| Glob.ChunkEndNoStars | dnscrypt-proxy/plugin_block_name.go:261 | a chunk holds no star |
| Glob.FirstFit | dnscrypt-proxy/plugin_block_name.go:261 | a position found for the chunk is at or after the start, and leaves room for the chunk |
| Glob.FirstFitIsFirst | dnscrypt-proxy/plugin_block_name.go:261 | a position found is a fit, reached without crossing a '/', with no fit before it; when none is found there is no fit reachable without crossing a '/' |
| Glob.FirstFitBefore | dnscrypt-proxy/plugin_block_name.go:261 | any fit reachable without crossing a '/' means a first fit is found, at or before it |
| Glob.Step | dnscrypt-proxy/plugin_block_name.go:261 | one pass of the loop moves forward in the pattern and never backward in the name |
| Glob.GoMatchStep | dnscrypt-proxy/plugin_block_name.go:261 | the loop goes on from where a pass leaves off, and fails when a pass fails |
| Glob.StepStars | dnscrypt-proxy/plugin_block_name.go:261 | trailing stars take the rest of a name without '/' |
| Glob.StepLeading | dnscrypt-proxy/plugin_block_name.go:261 | a chunk with no star before it must fit at once |
| Glob.StepStarred | dnscrypt-proxy/plugin_block_name.go:261 | a chunk after stars goes to its first fit, or the match fails |
| Glob.GoMatchStarred | dnscrypt-proxy/plugin_block_name.go:261 | after stars and a chunk the loop goes on right after the chunk's first fit |
| Glob.ShellStar | dnscrypt-proxy/plugin_block_name.go:261 | in the reference, a star absorbs any run of a name without '/' |
| Glob.ShellStars | dnscrypt-proxy/plugin_block_name.go:261 | the same for a run of stars |
| Glob.ChunkFitsStep | dnscrypt-proxy/plugin_block_name.go:261 | a chunk fits when its first token matches and the rest of it fits one character on |
| Glob.ShellChunk | dnscrypt-proxy/plugin_block_name.go:261 | in the reference, a chunk matches one character per token, and the rest of the pattern what follows |
| Glob.ShellStarEarlier | dnscrypt-proxy/plugin_block_name.go:261 | in the reference, a pattern going on with a star that matches from some position also matches from every earlier one |
| Glob.ShellPlacement | dnscrypt-proxy/plugin_block_name.go:261 | when the reference matches a chunk at a position, the chunk fits there and the rest of the pattern matches right after it |
| Glob.ShellStarChunkNone | dnscrypt-proxy/plugin_block_name.go:261 | when a chunk after stars has no fit, the reference does not match either |
| Glob.ShellStarChunkSome | dnscrypt-proxy/plugin_block_name.go:261 | when a chunk after stars first fits at some position, the reference matches exactly when the rest matches right after that fit |
| Glob.ShellFirstFitBack | dnscrypt-proxy/plugin_block_name.go:261 | in the reference, stars followed by a chunk that fits at some position from the start on, and a match of the rest after that fit, make a match of the whole |
| Glob.ShellFirstFitForth | dnscrypt-proxy/plugin_block_name.go:261 | in the reference, a match of stars, a chunk and the rest gives a match of the rest right after the chunk's first fit |
| Glob.ShellRestEarlier | dnscrypt-proxy/plugin_block_name.go:261 | what follows a chunk also matches from an earlier fit |
| Glob.GoMatchAgrees | dnscrypt-proxy/plugin_block_name.go:261 | on a name without '/', Go's loop and the reference agree from every position of the pattern and of the name |
| Glob.AgreesStars | dnscrypt-proxy/plugin_block_name.go:261 | the case of stars only: both match |
| Glob.AgreesLeading | dnscrypt-proxy/plugin_block_name.go:261 | the case of a leading chunk: both agree |
| Glob.AgreesStarredNone | dnscrypt-proxy/plugin_block_name.go:261 | the case of stars and a chunk without a fit: neither matches |
| Glob.AgreesStarredSome | dnscrypt-proxy/plugin_block_name.go:261 | the case of stars and a chunk with a fit: both agree |
| Glob.MatchAgrees | dnscrypt-proxy/plugin_block_name.go:261 | `Match` holds exactly when the pattern is well formed and the reference matches, on every name without '/' |
| Glob.SingleChunk | dnscrypt-proxy/plugin_block_name.go:261 | a star-free pattern matches exactly the names of its own length that it fits, one token per character |
| Glob.ClassLeftmostExample | dnscrypt-proxy/plugin_block_name.go:142 | the class of `*[a/]*x` reads as the ranges 'a' and '/' |
| Glob.ParseLeftmostExample | dnscrypt-proxy/plugin_block_name.go:142 | `*[a/]*x` parses to a star, the class of 'a' and '/', a star and a literal 'x' |
| Glob.LeftmostExample | dnscrypt-proxy/plugin_block_name.go:261 | `*[a/]*x` does not match `a/x` in Go, because the class takes the 'a' at its first fit and the next star cannot skip the '/', though the reference matches |
| Glob.ClassChar | dnscrypt-proxy/plugin_block_name.go:142 | a class character consumes input and leaves some of the pattern |
| Glob.ClassRanges | dnscrypt-proxy/plugin_block_name.go:142 | a parsed class has at least one range and consumes input |
| Glob.Lits | dnscrypt-proxy/plugin_block_name.go:261 | one literal token per character |
| Glob.ParsePlain | dnscrypt-proxy/plugin_block_name.go:142 | a pattern without special characters parses to its literal characters |
| Glob.MatchLiterals | dnscrypt-proxy/plugin_block_name.go:261 | literal tokens match exactly their own string |
| Glob.PlainMatchesItself | dnscrypt-proxy/plugin_block_name.go:261 | a plain pattern is well formed and matches only itself |
| Glob.StarMatchesAll | dnscrypt-proxy/plugin_block_name.go:261 | `*` matches every name without a '/' |
| Glob.ParseQuestionMarkExample | dnscrypt-proxy/plugin_block_name.go:142 | `a?c.com` parses to a literal, an any-character token and literals |
| Glob.MatchLitAnyLits | dnscrypt-proxy/plugin_block_name.go:261 | that token list matches `a`, one non-separator character, then the rest exactly |
| Glob.QuestionMarkExample | dnscrypt-proxy/plugin_block_name.go:261 | `a?c.com` matches `abc.com` and `axc.com` but neither `ac.com` nor `abbc.com` |
| Radix.Empty | dnscrypt-proxy/plugin_block_name.go:121-122 | a new tree has no keys |
| Radix.Insert | dnscrypt-proxy/plugin_block_name.go:188-190 | inserting adds the key with its value and keeps every other entry |
| Radix.LongestPrefixUpTo | dnscrypt-proxy/plugin_block_name.go:230 | the longest key of at most n characters that starts the string |
| Radix.LongestPrefix | dnscrypt-proxy/plugin_block_name.go:246 | a found key starts the string and no longer key does; nothing is found exactly when no key starts it |
| Radix.LongestPrefixUnique | dnscrypt-proxy/plugin_block_name.go:230 | the longest matching key is the only one of its length |
| Radix.LongestPrefixSingle | dnscrypt-proxy/plugin_block_name.go:230 | a one-key tree finds its key exactly when the key starts the string |
| Matching.SuffixStage | dnscrypt-proxy/plugin_block_name.go:229-244 | defines the suffix stage: the longest stored reversed suffix that starts the reversed name rejects on a label boundary, and otherwise decides the one retry on the parent domain; SuffixStageSound, SuffixStageExact, SuffixStageParent and SuffixStageRetriesOnce state its properties |
| Matching.ParentRetry | dnscrypt-proxy/plugin_block_name.go:233-242 | defines the retry: the reversed name cut before its last '.' is looked up with the same boundary rule; ParentRetrySingle and SuffixStageParent state its properties |
| Matching.PrefixStage | dnscrypt-proxy/plugin_block_name.go:245-250 | the prefix stage rejects exactly when a stored prefix starts the name, with the longest such prefix and `*` as the reason |
| Matching.FirstContainedFrom | dnscrypt-proxy/plugin_block_name.go:252-257 | the first substring, in store order, that the name contains |
| Matching.FirstMatchingFrom | dnscrypt-proxy/plugin_block_name.go:260-265 | the first pattern, in store order, that matches the name |
| Matching.SubstringStage | dnscrypt-proxy/plugin_block_name.go:251-258 | defines the substring stage: the first stored substring the name contains, reported between stars; FirstContainedFrom states its contract |
| Matching.PatternStage | dnscrypt-proxy/plugin_block_name.go:259-266 | defines the pattern stage: the first stored pattern the name matches, reported as itself; FirstMatchingFrom states its contract |
| Matching.Decide | dnscrypt-proxy/plugin_block_name.go:228-266 | defines the decision: the four stages in order, and the first that matches decides; DecideSound, DecideComplete and DecideNone state its properties |
| Matching.Verdict | dnscrypt-proxy/plugin_block_name.go:219-226 | defines the whole decision for a message: none unless there is exactly one question whose lowercased name has two characters or more; MalformedNeverRejected states it |
| Matching.ReverseAppendDot | dnscrypt-proxy/plugin_block_name.go:231-232 | reversing `m.` puts the dot first |
| Matching.BoundaryPrefix | dnscrypt-proxy/plugin_block_name.go:231 | `m.` starts the reversed name exactly when the name ends with `.` and the reverse of m |
| Matching.AtBoundary | dnscrypt-proxy/plugin_block_name.go:231-237 | a match at a label boundary is the whole name or one of its dotted suffixes |
| Matching.SuffixStageSound | dnscrypt-proxy/plugin_block_name.go:229-244 | a suffix rejection names a stored suffix, as `*.` and the suffix, and the name is that suffix or ends with `.` and that suffix |
| Matching.SuffixStageExact | dnscrypt-proxy/plugin_block_name.go:229-232 | a stored suffix equal to the whole name rejects it, giving that suffix as the reason |
| Matching.NoDotInReverse | dnscrypt-proxy/plugin_block_name.go:234 | reversal adds no dot |
| Matching.ReverseDotted | dnscrypt-proxy/plugin_block_name.go:227 | the reverse of `first.parent` is the reversed parent, a dot, and the reversed first label |
| Matching.NoDotAfter | dnscrypt-proxy/plugin_block_name.go:234 | no dot after the one joining the two parts |
| Matching.LastDotAfter | dnscrypt-proxy/plugin_block_name.go:234 | the last dot of the reversed name sits right before its reversed first label |
| Matching.SuffixStageParent | dnscrypt-proxy/plugin_block_name.go:229-244 | a name one label below a stored suffix is always rejected |
| Matching.ParentRetrySingle | dnscrypt-proxy/plugin_block_name.go:233-242 | in a one-key tree a non-boundary match is not rescued by the retry |
| Matching.SuffixStageSingleRule | dnscrypt-proxy/plugin_block_name.go:229-244 | with one suffix rule, a name is rejected exactly when it is that suffix or ends with `.` and the suffix |
| Matching.SuffixStageNoBoundary | dnscrypt-proxy/plugin_block_name.go:231-242 | a non-boundary longest match with a failed retry lets the name through |
| Matching.RetryExampleLookup | dnscrypt-proxy/plugin_block_name.go:230 | in the example's tree, the longest key starting `moc.live.ba.x` or `moc.live.ba` is `moc.live.b` |
| Matching.RetryExampleParent | dnscrypt-proxy/plugin_block_name.go:233-242 | the retry on the example's parent domain ends inside a label and finds nothing |
| Matching.RetryExampleStage | dnscrypt-proxy/plugin_block_name.go:229-244 | the suffix stage lets the example's name through |
| Matching.SuffixStageRetriesOnce | dnscrypt-proxy/plugin_block_name.go:233-242 | with the rules `com` and `b.evil.com`, the name `x.ab.evil.com` ends with `.com` but is not rejected, because the retry is made once only |
| Matching.DecideSound | dnscrypt-proxy/plugin_block_name.go:228-266 | every rejection reason is explained by a stored rule of some kind that matches the name |
| Matching.DecideComplete | dnscrypt-proxy/plugin_block_name.go:228-266 | a name equal to a stored suffix, or started by a stored prefix, or containing a stored substring, or matched by a stored pattern is rejected |
| Matching.DecideNone | dnscrypt-proxy/plugin_block_name.go:228-266 | a name passes exactly when the suffix stage passes it and no prefix, substring or pattern matches it |
| Matching.SuffixTakesPrecedence | dnscrypt-proxy/plugin_block_name.go:229-245 | a name equal to a stored suffix is always rejected for that suffix, whatever the other stores hold |
| Matching.PrefixBeforeSubstringAndPattern | dnscrypt-proxy/plugin_block_name.go:245-259 | when the suffix stage passes and some prefix matches, the reason is the longest matching prefix, whatever the substrings and patterns |
| Matching.FirstContainedRepeat | dnscrypt-proxy/plugin_block_name.go:252-257 | the first-match scan over substrings is unchanged by appending again a block already appended |
| Matching.SubstringStageRepeat | dnscrypt-proxy/plugin_block_name.go:251-258 | the substring stage is unchanged when a block of substrings is appended twice |
| Matching.FirstMatchingRepeat | dnscrypt-proxy/plugin_block_name.go:260-265 | the first-match scan over patterns is unchanged by appending again a block already appended |
| Matching.PatternStageRepeat | dnscrypt-proxy/plugin_block_name.go:259-266 | the pattern stage is unchanged when a block of patterns is appended twice |
| Matching.DecideReload | dnscrypt-proxy/plugin_block_name.go:184-186 | loading the same substring and pattern rules a second time, which `Init` appends again, changes no decision |
| BlockName.UntimedTree | dnscrypt-proxy/plugin_block_name.go:172-190 | the tree built from a set of keys holds exactly those keys and no time range |
| BlockName.UntimedByKeys | dnscrypt-proxy/plugin_block_name.go:172-190 | a tree without time ranges is determined by its key set |
| BlockName.InitTwice | dnscrypt-proxy/plugin_block_name.go:121-194 | after two runs of `Init` on one file, the trees are as after the first, the lists hold the file's substrings and patterns once more, and every name gets the same decision |
| Matching.MalformedNeverRejected | dnscrypt-proxy/plugin_block_name.go:219-226 | a message without exactly one question, or with a name shorter than two characters, is never rejected |
| BlockName.PluginBlockName.constructor | dnscrypt-proxy/plugin_block_name.go:31-40 | a new plugin has empty stores and the given time windows |
| BlockName.PluginBlockName.AddRule | dnscrypt-proxy/plugin_block_name.go:182-193 | the rule's text goes to the store of its kind, a suffix reversed, and the other stores and the time windows are unchanged |
| BlockName.PluginBlockName.AddLine | dnscrypt-proxy/plugin_block_name.go:124-193 | one line leaves the stores as its classification says, keeps them lower-case and non-empty, and never attaches a time range |
| BlockName.PluginBlockName.Valid | dnscrypt-proxy/plugin_block_name.go:168-190 | defines the store invariant: every stored text is non-empty and lower-case, as the empty-rule check and the lower-casing before the `switch` leave it; the constructor, AddRule, AddLine and Init keep it |
| BlockName.PluginBlockName.NoTimeRanges | dnscrypt-proxy/plugin_block_name.go:172-190 | defines the effect of the shadowed `timeRange`: no tree entry carries a time range; AddLine and Init keep it |
| BlockName.PluginBlockName.Snapshot | dnscrypt-proxy/plugin_block_name.go:182-190 | defines the plugin's stores seen by content, the key sets of the trees and the two lists; AddRule, AddLine and Init state their new state through it |
| BlockName.PluginBlockName.Init | dnscrypt-proxy/plugin_block_name.go:121-194 | the trees hold exactly the file's prefix rules and reversed suffix rules, with no time range, so they are determined by their keys; its substrings and patterns are appended in file order |
| BlockName.PluginBlockName.Match | dnscrypt-proxy/plugin_block_name.go:227-266 | the stages reject exactly when the decision function does, with the same reason |
| BlockName.PluginBlockName.MatchSuffix | dnscrypt-proxy/plugin_block_name.go:227-244 | agrees with the suffix stage |
| BlockName.PluginBlockName.MatchPrefix | dnscrypt-proxy/plugin_block_name.go:245-250 | agrees with the prefix stage |
| BlockName.PluginBlockName.MatchSubstring | dnscrypt-proxy/plugin_block_name.go:251-258 | agrees with the first substring, in store order, the name contains |
| BlockName.PluginBlockName.MatchPattern | dnscrypt-proxy/plugin_block_name.go:259-266 | agrees with the first pattern, in store order, the name matches |
| BlockName.PluginBlockName.Eval | dnscrypt-proxy/plugin_block_name.go:218-268 | the action becomes Reject exactly when the message's single lowercased name is rejected, and is otherwise left alone |

## Left out

- Reading the rule file, and the error `Init` returns when that fails: `Init` takes the file's contents as a parameter.
- All logging through `dlog`, including the "time range not found" message, which changes no state.
- The audit log written by `Eval` for a rejection (lines 269-295): the record's format, the client address, the time stamp and the file write. The reason string computed for it is modelled.
- `Name`, `Description`, `Drop` and `Reload`, which hold no logic.
- `StripTrailingDot`: `Eval` takes question names without their trailing dot. DNS message decoding is not part of this model.
- `Eval`'s error result: it is nil on every path the model covers. Its only non-nil value, at line 290, is in the audit-log branch. That branch is entered only with the log file open (line 269), so in a sequential run line 290 cannot be reached.
- The plugin-state type and its action constants come from another file, which is not part of this model. They appear here as a small class and datatype.
- `iradix` internals: a tree is a finite map, with insertion and a longest-prefix lookup that state what the library returns.
- Text.ToLower: ASCII letters only; Go's `strings.ToLower` also lowers non-ASCII letters. Rules and names are taken to be ASCII, and a character stands for a byte.
- Glob.Match: `filepath.Match` on Unix, with '/' as the separator and '\\' as the escape character. Windows paths are not modelled, and characters stand for bytes. At load time only the pattern's parse matters: the trial match against `example.com` is discarded, so the model checks the pattern with `Glob.Valid`.
- Glob.Valid: follows Go 1.16 and later, where `filepath.Match` reports a malformed pattern even when the match fails before reaching the fault. Older Go reported the error only when the matcher reached it, so a pattern such as `x[` passed the load-time check against `example.com` and was stored. The model keeps the newer behaviour.
- The valid time windows built elsewhere are a parameter of the plugin's constructor. Their effect on matching is not modelled, because no tree entry ever carries one.
- Concurrency: the plugin is read by several queries at once in the proxy. The model is sequential.
