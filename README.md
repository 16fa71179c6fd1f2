# Codename generator, modelled in Dafny

This project models the core of `app.js`, a browser page that generates
codenames. A codename is an adjective followed by a noun, or by the fixed
word "BEE". The page does four things:

- it draws words with a seedable pseudo-random source (xmur3 hashes the
  seed, mulberry32 produces the stream, and `Math.random` is used when the
  seed is blank);
- it normalises every candidate (trim, one of four casings, white-space
  runs replaced by the separator);
- it rejects candidates that are on a blacklist or, in the "session" and
  "global" uniqueness modes, already used;
- it keeps drawing until `count` names are accepted or `count * 20`
  attempts are spent, then adds a shortfall line if it came up short.

The modules follow the program's structure:

| module | file | what it holds |
|---|---|---|
| `Prng` | prng.dfy | `xmur3`, `mulberry32` and `seededRng`, as the classes `Xmur3`, `Mulberry32` and `Rng`, each holding the state its closure captures; `bv32` arithmetic stands for `Math.imul`, the shifts and `>>> 0` |
| `Text` | text.dfy | `trim`, the casings, `replace` with its replacement patterns, and `normalizeName` (`Normalize`) |
| `Candidates` | candidates.dfy | `pick` and `generateOne` |
| `Words` | words.dfy | the word-list parsing in `ensureWordlists` (`ParseWordList`) and `buildBlacklistSet` |
| `Counts` | counts.dfy | `parseInt`, the count clamp and the decimal rendering of the shortfall line |
| `Generator` | generator.dfy | the `state` object (`AppState`) with the generate handler, its resolver loop, and the clear-used handler |
| `Wrappers` | wrappers.dfy | `Option` |

A random value is kept as the 32-bit integer `u` that mulberry32
computes before dividing by 2^32. The float `u / 2^32` therefore lies in
[0, 1) because `u < 2^32`, which the type `Candidates.Draw` records.
`pick`'s `Math.floor(r * len)` becomes the integer quotient
`(u * len) / 2^32`; the two agree for lists of up to 2^21 entries.

The resolver is specified in both directions. Its ghost output `raws`
lists the raw candidate of every attempt, in order. For a seeded source,
`Generator.SeededRaws` pins each one to the mulberry32 values that attempt
consumes. For a blank seed, `Generator.SystemRaws` pins it to the
`Math.random` values that attempt consumes. The accepted names are then
exactly `Generator.Accepted(Names(raws))`. `Accepted` is a plain filter: it
keeps a drawn name when it is neither blacklisted nor, in a scoped mode,
already used or already kept. So every admissible draw is kept and every
other draw is dropped. A ghost `pool` holding the normal form of every raw
candidate (`Generator.Covers`) also shows that every accepted name is one
the generator could produce.

`replace(/\s+/g, sep)` is modelled with the replacement patterns of
`String.prototype.replace`, as the GetSubstitution operation of ECMA-262
defines them. In the separator, "$$" inserts one '$', "$&" inserts the matched
white space, "$`" inserts the text before the match and "$'" the text after
it (`Text.Expand`, `Text.ReplaceFrom`). A separator without these patterns
is `Text.Literal`. For such separators `Text.ReplaceLiteral` shows that the
replacement is the simpler left-to-right scan `Text.CollapseFrom`. The
facts that need a literal separator say so in their preconditions.

Three behaviours of the code a reader may not expect:

- Picking from an empty word list yields `undefined`, which the template
  literal renders as the text "undefined". The model does the same and
  raises no error.
- `normalizeName` is not idempotent in general. Each of these breaks it:
  - title casing with an empty or word-character separator
    (`Text.TitleNotIdempotent`; with "-" the word starts survive, see
    `Text.TitleHyphenKept`);
  - a separator that the casing changes (`Text.CasedSeparatorNotIdempotent`);
  - a separator that mixes white space with other characters
    (`Text.MixedSeparatorNotIdempotent`);
  - a separator holding "$&", "$`" or "$'", which inserts the matched white
    space or the text around the match (`Text.MatchSeparatorNotIdempotent`,
    `Text.PrefixSeparatorNotIdempotent`, `Text.SuffixSeparator`).

  `Text.NormalizeIdempotent` proves idempotence under sufficient
  conditions: no title casing, a literal separator that is all white space
  or has none, and a casing that leaves the separator alone. The conditions
  are not necessary. Some excluded cases are still idempotent, such as the
  separator "$$", which inserts a '$' and no white space, or title casing
  with "-" (`Text.TitleHyphenKept`).
- When no digit follows the count field's leading white space and optional
  sign, `parseInt` gives NaN. NaN survives the clamp, so the loop never runs and no shortfall line
  is added: the output is empty.

## Model

| member | source | states |
|---|---|---|
| Prng.CodeUnit | app.js:5 | definition: `charCodeAt` as the character's code, one code unit per character (see "Left out") |
| Prng.Absorb | app.js:5-6 | definition: one character absorbed by `Math.imul` and a 13-bit rotation; `Xmur3.constructor` states the whole loop with it |
| Prng.Avalanche | app.js:9-12 | definition: the three mixing rounds and `>>> 0`; `Xmur3.Next` states one call with it |
| Prng.Temper | app.js:18-20 | definition: the tempering before the division by 2^32; `Mulberry32.Next` states one call with it |
| Prng.AbsorbAll | app.js:4-7 | definition: every character absorbed left to right; the reference `Xmur3.constructor`'s loop is proved against |
| Prng.SeedState | app.js:3-7 | definition: xmur3's state before its first call, `1779033703 ^ length` then AbsorbAll; `Xmur3.constructor` ensures it |
| Prng.SeedOf | app.js:25 | definition: `xmur3(String(seed))()`, the Avalanche of SeedState; `Rng.constructor` and SameSeedSameStream state what it seeds |
| Prng.Xmur3.constructor | app.js:2-7 | the hashing loop leaves the state `SeedState(str)`: `1779033703 ^ length`, then every character absorbed left to right |
| Prng.Xmur3.Next | app.js:8-13 | one call applies the avalanche rounds to the state and returns the new state |
| Prng.Mulberry32.constructor | app.js:15 | `mulberry32(a)` captures the given counter |
| Prng.Skip | app.js:17 | definition: the counter after `n` calls; facts in SkipSnoc and SkipAdd |
| Prng.MulberryStream | app.js:16-20 | definition: the first `n` outputs, output `i` the tempered counter after `i + 1` steps; `Mulberry32.Take` is proved equal to it, MulberryStreamSnoc extends it |
| Prng.Mulberry32.Next | app.js:16-20 | one call advances the counter by 0x6D2B79F5 and returns the tempered counter (the value before the division) |
| Prng.Mulberry32.Take | app.js:15-21 | `n` calls return exactly the first `n` values of `MulberryStream` from the starting counter and leave the counter `n` steps on |
| Prng.SkipSnoc | app.js:17 | one more call adds one counter step to the counter after `n` calls |
| Prng.SkipAdd | app.js:17 | `m` calls of mulberry32 followed by `n` calls are `m + n` calls |
| Prng.MulberryStreamSnoc | app.js:16-20 | the next call's output is the next element of the stream |
| Prng.Rng.constructor | app.js:23-27 | a blank seed selects the system generator; any other seed gives a fresh mulberry32 whose counter is xmur3's first output for the seed |
| Prng.Rng.Next | app.js:23-27 | one call of the function `seededRng` returns: mulberry32's next value, or the next system value |
| Prng.Rng.Take | app.js:23-27 | `n` calls give the seeded stream or `n` consecutive system values |
| Prng.SameSeedSameStream | app.js:23-27 | two sources with the same non-empty seed give identical streams whatever the system generator does, and that stream is `SeededStream(seed, n)` |
| Text.IsSpace | app.js:56-64 | definition: the white space `\s` matches and `trim` removes, as ECMAScript's WhiteSpace and LineTerminator sets; facts in the Trim and Replace lemmas |
| Text.IsWordChar | app.js:61 | definition: the characters `\w` matches, ASCII letters, digits and '_' |
| Text.StartsWord | app.js:61 | definition: where `\b\w` matches, a word character not preceded by one; TitleCaseShape shows title casing keeps these positions |
| Text.ToUpper | app.js:58 | upper-casing a character leaves no lower-case letter, changes nothing else, and keeps white space and word characters |
| Text.ToLower | app.js:59 | the same for lower-casing |
| Text.CaseRoundTrip | app.js:58-59 | upper-casing a lower-case letter gives an upper-case letter that lower-cases back to it, and the other way round |
| Text.CaseOrder | app.js:58-59 | both casings keep alphabetical order, so each letter maps to the letter at the same place in the other case |
| Text.UpperCase | app.js:58 | `toUpperCase` keeps the length, leaves no lower-case letter and changes only letters |
| Text.LowerCase | app.js:59 | `toLowerCase` keeps the length, leaves no upper-case letter and changes only letters |
| Text.TitleCase | app.js:61 | title casing keeps the length |
| Text.TitleCaseShape | app.js:61 | title casing keeps the word starts; each character becomes its lower-case form, upper-cased again at a word start, so a word start holds no lower-case letter and every other position no upper-case one |
| Text.ApplyCasing | app.js:58-62 | each casing keeps the length and the positions of white space |
| Text.CasingOf | app.js:142 | definition: "upper", "lower" and "title" select their casing, anything else leaves the name as it is |
| Text.TrimStart | app.js:56 | definition: leading white space dropped; facts in TrimStartSuffix, TrimStartDrops and TrimStartStops |
| Text.TrimEnd | app.js:56 | definition: trailing white space dropped; facts in TrimEndPrefix, TrimEndDrops and TrimEndStops |
| Text.Trim | app.js:56 | definition: `trim` as trimEnd after trimStart; facts in TrimShape, TrimTrimmed and TrimIdempotent |
| Text.TrimStartSuffix | app.js:56 | `trimStart` keeps a suffix |
| Text.TrimStartDrops | app.js:56 | what `trimStart` removes is white space |
| Text.TrimStartStops | app.js:56 | what `trimStart` keeps does not start with white space |
| Text.TrimEndPrefix | app.js:56 | `trimEnd` keeps a prefix |
| Text.TrimEndDrops | app.js:56 | what `trimEnd` removes is white space |
| Text.TrimEndStops | app.js:56 | what `trimEnd` keeps does not end with white space |
| Text.TrimShape | app.js:56 | `trim` leaves no white space at either end |
| Text.TrimTrimmed | app.js:56 | `trim` leaves a string without white space at its ends unchanged |
| Text.TrimIdempotent | app.js:56 | `trim` is idempotent |
| Text.Expand | app.js:64 | definition: the text inserted for one match, with "$$", "$&", "$`" and "$'" expanded; facts in ExpandLiteral, ExpandKeeps, DollarSeparator, MatchSeparatorNotIdempotent, PrefixSeparatorNotIdempotent and SuffixSeparator |
| Text.ReplaceFrom | app.js:64 | definition: the global replacement of every maximal white-space run from a position on; facts in ReplaceLiteral, ReplaceKeeps and ReplaceLast |
| Text.Replace | app.js:64 | definition: `replace(/\s+/g, sep)` over the whole text; facts through ReplaceFrom |
| Text.Normalize | app.js:55-66 | definition: trim, casing, replace; facts in NormalizeTrimmed, NormalizeSpaceless, NormalizeUpper, NormalizeLower, NormalizeCased, NormalizeIdempotent, NormalizeTwoWords and the counterexample lemmas |
| Text.RunEnd | app.js:64 | the white-space run that `\s+` matches from a position is maximal: all white space up to its end, and no white space at its end |
| Text.ExpandLiteral | app.js:64 | a separator without "$$", "$&", "$`" or "$'" is inserted as written |
| Text.ExpandKeeps | app.js:64 | the text inserted for one match holds only characters of the separator, the match and the text around the match |
| Text.ReplaceLiteral | app.js:64 | with a literal separator, `replace(/\s+/g, sep)` equals the left-to-right scan that emits `sep` for the first character of each run and nothing for the rest |
| Text.ReplaceKeeps | app.js:64 | a property of every character of the text and of the separator holds for every character of the replacement |
| Text.ReplaceLast | app.js:64 | a final character outside white space stays final, whatever the separator |
| Text.CollapseKeeps | app.js:64 | in the literal scan, a property of every non-space character and of the separator holds for every character of the result |
| Text.CollapseSpaceless | app.js:64 | text without white space is left unchanged |
| Text.CollapseSkipsRun | app.js:64 | a whole run of white space becomes one separator, not one per character |
| Text.CollapseCons | app.js:64 | a non-space character passes through |
| Text.CollapseLast | app.js:64 | a final non-space character stays final |
| Text.CollapseFromIdempotent | app.js:64 | with a separator that is all white space or has none, scanning twice equals scanning once |
| Text.CollapseJoin | app.js:64 | two words joined by one space come out joined by the separator |
| Text.NormalizeSpaceless | app.js:55-66 | with a literal separator free of white space, the name has no white space at all |
| Text.NormalizeTrimmed | app.js:55-66 | for any separator, the name has no white space at either end |
| Text.NormalizeUpper | app.js:58-64 | upper casing leaves no lower-case letter unless the separator has one |
| Text.NormalizeLower | app.js:59-64 | lower casing leaves no upper-case letter unless the separator has one |
| Text.CasingFixed | app.js:58-59 | upper, lower and unchanged casing leave their own results alone |
| Text.NormalizeCased | app.js:55-66 | re-applying a non-title casing to a normalised name changes nothing when it leaves the separator alone |
| Text.NormalizeIdempotent | app.js:55-66 | with a non-title casing that leaves the separator alone, and a literal separator that is all white space or has none, normalising twice equals normalising once |
| Text.CasingConcat | app.js:58-59 | the non-title casings distribute over concatenation |
| Text.NormalizeTwoWords | app.js:55-66 | a two-word candidate normalises to the two cased words joined by a literal separator |
| Text.TitleNotIdempotent | app.js:61-64 | "A B" with "_" and title casing gives "A_B", and normalising that gives "A_b" |
| Text.TitleFirstPass | app.js:61-64 | the first pass of that example |
| Text.TitleSecondPass | app.js:61-64 | the second pass of that example |
| Text.TitleHyphenKept | app.js:61-64 | with "-" and title casing, "A B" gives "A-B", and normalising that gives "A-B" again |
| Text.TitleHyphenFirstPass | app.js:61-64 | the first pass of that example |
| Text.TitleHyphenSecondPass | app.js:61-64 | the second pass of that example |
| Text.CasedSeparatorNotIdempotent | app.js:58-64 | with separator "x" and upper casing, "A B" gives "AxB", and normalising that gives "AXB" |
| Text.CasedSeparatorFirstPass | app.js:58-64 | the first pass of that example |
| Text.CasedSeparatorSecondPass | app.js:58-64 | the second pass of that example |
| Text.MixedSeparatorNotIdempotent | app.js:64 | with separator " - ", "A B" gives "A - B", and normalising that gives "A - - - B" |
| Text.MixedSeparatorSecondPass | app.js:64 | the second pass of that example |
| Text.MixedReplace | app.js:64 | both white-space runs of "A - B" are replaced by " - " |
| Text.MixedReplaceTail | app.js:64 | the replacement from the second run on |
| Text.DollarSeparator | app.js:64 | the separator "$$" joins "A B" with a single '$' |
| Text.MatchSeparatorNotIdempotent | app.js:64 | with separator "x$&", "A B" gives "Ax B" (the matched space is re-inserted), and normalising that gives "Axx B" |
| Text.MatchSeparatorFirstPass | app.js:64 | the first pass of that example |
| Text.MatchSeparatorSecondPass | app.js:64 | the second pass of that example |
| Text.PrefixSeparatorNotIdempotent | app.js:64 | with separator "$`", "A B C" gives "AABA BC" (the text before each match is inserted, white space included), and normalising that gives "AABAAABABC" |
| Text.PrefixSeparatorFirstPass | app.js:64 | the first pass of that example |
| Text.PrefixReplaceTail | app.js:64 | the replacement of that example from the second run on |
| Text.PrefixSeparatorSecondPass | app.js:64 | the second pass of that example |
| Text.SuffixSeparator | app.js:64 | with separator "$'", "A B C" gives "AB CBCC": the text after each match is inserted, white space included |
| Candidates.ModeOf | app.js:84 | definition: "adj-bee" pairs the adjective with "BEE", any other mode with a noun |
| Candidates.Show | app.js:86 | definition: the template literal renders a missing pick as "undefined"; ShowReaches states every rendering occurs |
| Candidates.PickIndex | app.js:69 | the scaled index is a valid index of the list |
| Candidates.Pick | app.js:68-70 | `pick` gives nothing exactly when the list is empty, and otherwise an element of the list |
| Candidates.PickIndexReaches | app.js:69 | every index of a list of up to 2^32 entries is picked by some random value |
| Candidates.PickReaches | app.js:68-70 | every element of such a list can be picked |
| Candidates.ShowReaches | app.js:68-70 | every rendering of a pick ("undefined" for an empty list) can occur |
| Candidates.Candidate | app.js:82-87 | the candidate is an adjective (or "undefined"), a space and a second word; in "adj-bee" mode the second word is "BEE" |
| Candidates.CandidateReaches | app.js:82-87 | every combination of an adjective and a second word is produced by some random values |
| Candidates.CandidateOf | app.js:82-87 | the candidate built from one call's random values lies in the candidate space |
| Candidates.Draws | app.js:83-84 | definition: one `rng()` call in "adj-bee" mode, two otherwise; GenerateOne ensures exactly that many values are consumed |
| Candidates.GenerateOne | app.js:82-87 | `generateOne` consumes one random value in "adj-bee" mode and two otherwise, returns the candidate those values build, and that candidate lies in the candidate space |
| Counts.DigitChar | app.js:172 | a printed digit reads back as its value |
| Counts.DigitRun | app.js:140 | the leading run of digits is maximal |
| Counts.LeadingNumber | app.js:140 | there is a number exactly when the text starts with a digit |
| Counts.Clamp | app.js:140 | the clamp lies in [1, 1000], keeps values in range, and sends smaller values to 1 and larger to 1000 |
| Counts.CountOf | app.js:140 | a count that is a number lies in [1, 1000] |
| Counts.ShortfallLine | app.js:172 | definition: the shortfall text with both numbers printed by Decimal, whose digits ValueDecimal reads back |
| Counts.Decimal | app.js:172 | a number prints as a non-empty run of digits |
| Counts.ValueDecimal | app.js:172 | the printed digits denote the number |
| Counts.DigitRunPrefix | app.js:140 | a run of digits followed by a non-digit is read in full |
| Counts.TrimStartSkips | app.js:140 | the leading white space `parseInt` skips ends at the first other character |
| Counts.LeadingDecimal | app.js:140 | the leading number of a printed number followed by a non-digit is that number |
| Counts.SignedDecimal | app.js:140 | a sign is applied to the number after it |
| Counts.Signed | app.js:140 | definition: an optional '+' or '-' before the leading digits; facts in SignedDecimal |
| Counts.ParseInt | app.js:140 | definition: `parseInt(_, 10)` as the signed leading number after white space, `None` for NaN; facts in ParseIntSkips, ParseIntDecimal and ParseIntNaN |
| Counts.ParseIntSkips | app.js:140 | `parseInt` ignores leading white space |
| Counts.ParseIntDecimal | app.js:140 | `parseInt` reads back any number after white space, with or without a sign, whatever non-digit text follows it |
| Counts.ParseIntNaN | app.js:140 | text with no digit right after the leading white space and the optional sign is NaN, white space after a sign included |
| Counts.CountOfEmpty | app.js:140 | an empty count field counts as 1 |
| Counts.CountOfInRange | app.js:140 | a count from 1 to 1000 is taken as written |
| Counts.CountOfAbove | app.js:140 | a larger count becomes 1000 |
| Counts.CountOfNumber | app.js:140 | a written number becomes its clamp |
| Counts.CountOfNegative | app.js:140 | a negative count becomes 1 |
| Words.DropCR | app.js:102 | definition: the `\r?` of `split(/\r?\n/)`, a '\r' before the break dropped; facts in DropCRHead and LinesCons |
| Words.Join | app.js:175 | definition: `join` with the given line ending; the output text `Respond` and `Generate` ensure, and LinesJoin and ParseJoin state its round trip |
| Words.NewlineIndex | app.js:102 | the first line break, or the end of the text when there is none |
| Words.Lines | app.js:102 | splitting always gives at least one line |
| Words.WordsOf | app.js:103-105 | no more entries than lines, and every entry is non-empty, trimmed and free of lower-case letters |
| Words.Entry | app.js:103-105 | definition: a line trimmed and upper-cased; facts in EntryShape and WordsOfLine |
| Words.EntryShape | app.js:103-105 | a non-blank line yields such an entry |
| Words.ParseWordList | app.js:101-111 | every parsed word is non-empty, trimmed and free of lower-case letters |
| Words.WordsOfConcat | app.js:101-105 | parsing keeps line order: two blocks of lines give the first block's entries, then the second's |
| Words.WordsOfLine | app.js:103-105 | a blank line gives nothing and any other line gives its trimmed, upper-cased text |
| Words.NewlineAfter | app.js:102 | the first line break after a line without breaks is the one that ends it |
| Words.NoNewline | app.js:102 | text without breaks has none to find |
| Words.LinesCons | app.js:102 | the first line is split off, without its final '\r' |
| Words.LinesJoin | app.js:102 | splitting lines joined with "\n" or "\r\n" gives them back |
| Words.JoinCons | app.js:102 | the line ending after the first of several lines is '\n', preceded by '\r' for "\r\n" |
| Words.DropCRHead | app.js:102 | the '\r' of a "\r\n" ending is removed when the line is split off |
| Words.LastLine | app.js:75 | a line appended after a break is one of the lines |
| Words.WordsOfEntries | app.js:103-105 | a list of entries passes through trim, filter and upper-casing unchanged |
| Words.ParseJoin | app.js:101-111 | parsing a word list written one entry per line, with either line ending, gives the list back in order |
| Words.BuildBlacklistSet | app.js:72-80 | `buildBlacklistSet` returns `BlacklistOf(text, sep, casing)` |
| Words.CollectNames | app.js:75-78 | the loop collects the normal form of every non-blank trimmed line |
| Words.NamesOf | app.js:75-78 | definition: the normal form of every non-blank trimmed line; facts in NamesOfStep and NamesOfMember, and CollectNames is proved equal to it |
| Words.NamesOfStep | app.js:76-77 | one more line adds its normal form, unless it is blank |
| Words.NamesOfMember | app.js:75-78 | a name is collected exactly when it is the normal form of some non-blank trimmed line |
| Words.BlacklistOf | app.js:72-80 | definition: the normal forms of the text's lines; facts in BlacklistMember, BlacklistOfEmpty, BlacklistBlocks and BuildBlacklistSet |
| Words.BlacklistOfEmpty | app.js:74 | empty text blacklists nothing |
| Words.BlacklistMember | app.js:72-80 | a name is blacklisted exactly when it is the normal form of some non-blank line of the text |
| Words.BlacklistBlocks | app.js:72-80 | adding a line holding a raw candidate blacklists that candidate's normal form |
| Words.BlacklistBlocksGenerated | app.js:72-80 | under the conditions of idempotence, pasting a generated name into the blacklist blacklists it |
| Words.TitleBlacklistMisses | app.js:72-80 | under title casing with "_", pasting the generated name "A_B" into the blacklist does not blacklist it |
| Generator.ScopeOf | app.js:147-148 | definition: "session" and "global" select that used-name set, anything else none |
| Generator.Keeps | app.js:159-163 | definition: the rejection tests of one attempt (blacklist, then the used-name set with the names kept so far); KeepStep shows Admit decides exactly this |
| Generator.Accepted | app.js:159-163 | definition: the names kept from the drawn names, in order; facts in AcceptedSnoc and Resolve |
| Generator.AppState.constructor | app.js:29-35 | the page starts with empty word lists, an empty session set and the persisted names |
| Generator.AppState.EnsureWordlists | app.js:89-112 | the lists are parsed from the two files when either is empty; otherwise nothing changes |
| Generator.AppState.Active | app.js:147-148 | definition: the session set, the persisted set or none, as the uniqueness field selects; Admit, Resolve and Generate state its growth |
| Generator.AppState.Admit | app.js:159-168 | a name is accepted exactly when it is in neither the blacklist nor the active set; an accepted name joins the active set, and the persisted set is saved once per addition |
| Generator.AcceptedSnoc | app.js:159-163 | one more drawn name is appended to the accepted names exactly when it is neither blacklisted nor, in a scoped mode, used before or already accepted |
| Generator.KeepStep | app.js:159-164 | `Admit`'s verdict on a drawn name is exactly that rule, and appending on acceptance keeps the names admissible, distinct and equal to the active set's growth |
| Generator.AppState.Keep | app.js:159-168 | the second half of a loop pass appends the drawn name exactly when the rule keeps it, extends the accepted names by that draw, and saves once per addition in global mode |
| Generator.DrawName | app.js:156-157 | one draw returns the normal form of the candidate that the next `Draws(mode)` random values build, and the random source moves past those values |
| Generator.SeededStep | app.js:154-156 | on the seeded source, the next attempt's candidate is built from the values after those the earlier attempts consumed |
| Generator.SystemStep | app.js:154-156 | the same for `Math.random`, whose next unread values are taken |
| Generator.TraceStep | app.js:154-156 | whichever source is in use, a completed draw extends the trace of the attempts by its candidate |
| Generator.DrawTraced | app.js:156-157 | a draw extends the trace and the list of drawn names by the drawn name |
| Generator.AppState.Attempt | app.js:155-168 | one loop pass draws one candidate, extends the trace, and leaves the accepted names equal to the filter of all names drawn so far |
| Generator.AppState.Resolve | app.js:150-169 | the names are exactly the filter of the normal forms of the candidates drawn, one per attempt, and those candidates are the ones the random stream from the starting state builds; at most `count` names and `count * 20` attempts, with all attempts spent when short; no name is blacklisted; every name is one the generator can produce; in a scoped mode the names are distinct and were not in the active set; with no scope and no blacklist exactly `count` names; the active set grows by the names, the other set and the word lists are unchanged, and the random source advances by the values the attempts consumed |
| Generator.AppState.Respond | app.js:138-175 | for a fresh source from the seed, the names are the filter of the drawn candidates' normal forms; the output holds them, then the shortfall line exactly when fewer than `count` were accepted, joined by '\n' |
| Generator.AppState.Generate | app.js:135-176 | the whole handler: the word lists are loaded once; the NaN count gives empty output; otherwise the names are the filter of the drawn candidates from the seed's stream (or `Math.random`'s), within the count bound, followed by the shortfall line exactly when short, none of them from the blacklist text, distinct and previously unused in a scoped mode; the active set grows by the names, the other set is unchanged, and global mode saves once per name |
| Generator.AppState.ClearUsed | app.js:182-187 | once confirmed, the persisted used names are forgotten; nothing else changes |
| Generator.DistinctBound | app.js:160-163 | distinct names drawn from a set are no more than the set holds |
| Generator.UniqueBound | app.js:154-173 | in a scoped mode the resolver accepts no more names than the pool holds outside the blacklist and the used names it started with |

## Left out

- `fetch` of adjectives.txt and nouns.txt, with its failure path and the async memoisation: `EnsureWordlists` takes the two texts as parameters.
- `localStorage`, `JSON.parse` and `JSON.stringify` in loadPersisted and savePersisted, and the `removeItem` in the clear handler: the constructor takes the persisted names, and the ghost counter `saves` records each savePersisted call.
- The DOM: form-field lookups, `outEl.textContent`, `confirm` and `alert`. The form fields are parameters, `confirm`'s answer is a parameter of `ClearUsed`, and the output text is a result.
- The download button and its Blob/URL handling: this is file export only.
- `Math.random`: its outputs are the parameter `entropy`, where the i-th call gives `entropy(i)`. A `Math.random` double carries more than 32 random bits, and `entropy: nat -> bv32` keeps each one only at a resolution of 2^-32; every pick is still reachable.
- `state.rng`: each click builds a fresh random source, and no later code reads the previous one, so the model keeps it local to the handler.
- Prng.Mulberry32.Next: the counter `a` is a JavaScript double that is never truncated, while the model keeps it modulo 2^32. The two agree while `a` stays below 2^53, about 5·10^6 calls.
- Prng.CodeUnit: characters outside the basic multilingual plane, whose UTF-16 length and `charCodeAt` differ from one Dafny character.
- Text.UpperCase and Text.LowerCase: only ASCII letters change case. White space is the full set that `\s` and `trim` use.
- Candidates.PickIndex: the float arithmetic of `rng() * arr.length` is replaced by the exact integer quotient. The two agree for lists of up to 2^21 entries, where the product stays exact in a double.
