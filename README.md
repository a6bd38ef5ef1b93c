# Word-frequency extraction core, modelled in Dafny

This project models the core of a text processor that builds an English word
list for a typing game. The processor reads every text file of a corpus and
splits each file's text into lines on `'\n'`. It splits each line into token
candidates on single spaces. It passes each token through a fixed chain of
filter rules that either reject it or normalize it to a lowercase word. Each
accepted word's count goes up by one in a word→count table.

The model has four modules, one per component:

- `Splitting` (`text.dfy`): `Split` on a single delimiter character. It keeps
  empty pieces and always yields at least one piece. It is proved inverse to
  `Join` in both directions.
- `WordFilter` (`word_filter.dfy`): trimming and the ordered rule chain.
  - `Filter` returns a `Verdict`: either `Accept(word)`, or `Reject(rule)`
    naming the rule that fired.
  - Trimming is proved to remove trim characters only, and only at the ends.
  - Accepted words are proved to be exactly the normalized words.
- `Frequency` (`frequency.dfy`): the table as a `map<string, nat>`, with
  three pieces:
  - the increment;
  - `Occurrences`, the reference count of tokens that normalize to a word;
  - `AddTokens`, the fold of filter-and-increment over a token sequence.

  Lemmas relate these, including order independence.
- `Pipeline` (`pipeline.dfy`): the driver loops as methods over a map-valued
  variable:
  - `AddLine` is the per-line work;
  - `AddDocument` is the loop over a file's lines;
  - `CountCorpus` is the loop over files, starting from an empty table.

  Each method is proved against `AddTokens` and `Occurrences`.

Two details of the code are easy to misread, and the model follows the code in both:

- **The length rule counts UTF-8 bytes, not characters** (`word.len()`).
  `Utf8Len` models this. The difference never changes whether a token is
  accepted: a single non-ASCII character passes the length rule but then
  fails the alphabetic rule. `ShortTokenRejected` proves this.
- **`"XVI"` is rejected, but by the inner-capital rule.** Its second and
  third letters are capitals, so the chain never reaches the roman-numeral
  rule (`CapitalNumeralRejected`). `"Xvi"` and `"civil"` are the ones the
  roman-numeral rule rejects.

The counts in the source are `i32`, because `or_insert(0)` leaves the type to
Rust's integer fallback. The pipeline model uses unbounded counts instead: the
corrected behaviour of the row under Findings. The `i32` wrap is modelled
separately by `Frequency.IncrementI32` and `Frequency.IncrementI32Overflows`.

## Model

| member | source | states |
|---|---|---|
| `Splitting.Split` | src/main.rs:137-140 | splitting yields at least one piece, and no piece contains the delimiter |
| `Splitting.JoinSplit` | src/main.rs:137 | splitting a text on newlines loses nothing: joining the lines with `'\n'` gives back the text |
| `Splitting.SplitJoin` | src/main.rs:140 | pieces without the delimiter are exactly recovered by splitting their join; consecutive spaces give empty tokens |
| `Splitting.SplitCount` | src/main.rs:140 | a line has one token candidate more than it has spaces |
| `WordFilter.Trim` | src/main.rs:144-146 | no contract of its own; `TrimIsInfix`, `TrimInfixUnique` and `TrimIdempotent` characterize it |
| `WordFilter.TrimStartSpec` | src/main.rs:144-146 | trimming the front removes a prefix of trim characters only and stops at the first other character |
| `WordFilter.TrimEndSpec` | src/main.rs:144-146 | trimming the back removes a suffix of trim characters only and stops at the last other character |
| `WordFilter.TrimIsInfix` | src/main.rs:144-146 | the trimmed token is a contiguous infix; everything outside it is one of the 14 trim characters; its own first and last characters are not |
| `WordFilter.TrimInfixUnique` | src/main.rs:144-146 | any infix with those properties is the trimmed token, so trimming removes all trim characters at both ends and nothing else |
| `WordFilter.TrimIdempotent` | src/main.rs:144-146 | trimming again changes nothing |
| `WordFilter.ToAsciiLowercase` | src/main.rs:163 | the length is kept, no capital remains, each character keeps its letter up to case, and every character that was not a capital is kept |
| `WordFilter.Utf8Len` | src/main.rs:149 | the byte length is at least the character count, and equals it for ASCII text |
| `WordFilter.AsciiLetterLength` | src/main.rs:149-154 | for a word of ASCII letters the byte-length rule is the character-length rule |
| `WordFilter.Filter` | src/main.rs:144-179 | every accepted word is normalized: length at least 2, only lowercase ASCII letters, has a vowel, not all roman-numeral letters |
| `WordFilter.FilterAccepts` | src/main.rs:144-179 | a token is accepted if and only if its trimmed form is all ASCII letters, has no capital past its first character and lowercases to a normalized word; the accepted word is that lowercase trimmed form |
| `WordFilter.FilterFixedPoint` | src/main.rs:144-179 | the filter returns a word unchanged if and only if the word is normalized |
| `WordFilter.FilterIdempotent` | src/main.rs:144-179 | filtering an accepted word again accepts it unchanged |
| `WordFilter.AcceptedIsLoweredInfix` | src/main.rs:144-163 | an accepted word is the lowercase form of the token's infix left after trimming only trim characters from the ends |
| `WordFilter.ShortTokenRejected` | src/main.rs:148-156 | a token shorter than two characters after trimming is rejected |
| `WordFilter.NonAlphabeticRejected` | src/main.rs:153-156 | a trimmed token that still holds a non-letter (inner apostrophe or hyphen, digit, `'\r'`) is rejected |
| `WordFilter.InnerUppercaseRejected` | src/main.rs:158-161 | a trimmed token with a capital anywhere past its first character is rejected |
| `WordFilter.CapitalizedAccepted` | src/main.rs:158-163 | a normalized word with only its first letter capitalized is accepted as the lowercase word |
| `WordFilter.CarriageReturnRejected` | src/main.rs:137-156 | a token ending in `'\r'` (the last token of a CRLF line) is always rejected, because `'\r'` is not trimmed |
| `WordFilter.RomanRejectionsContainI` | src/main.rs:165-179 | every token the roman-numeral rule rejects contains `i`, the one letter that is both a vowel and a roman-numeral letter |
| `WordFilter.TwoLetterWordAccepted` | src/main.rs:148-179 | `"an"` is accepted as `"an"` |
| `WordFilter.CapitalizedExample` | src/main.rs:158-163 | `"Apple"` is accepted as `"apple"` |
| `WordFilter.PunctuationTrimmedExample` | src/main.rs:144-146 | `"(hello),"` is accepted as `"hello"` |
| `WordFilter.TrailingCommaExample` | src/main.rs:144-163 | `"Hello,"` is accepted as `"hello"` |
| `WordFilter.SingleLetterRejected` | src/main.rs:148-151 | `"I"` is rejected by the length rule |
| `WordFilter.ApostropheRejected` | src/main.rs:153-156 | `"don't"` is rejected by the alphabetic rule |
| `WordFilter.CapitalNumeralRejected` | src/main.rs:158-161 | `"XVI"` is rejected by the inner-capital rule |
| `WordFilter.NoVowelRejected` | src/main.rs:165-171 | `"rhythm"` is rejected by the vowel rule |
| `WordFilter.RomanNumeralRejected` | src/main.rs:173-179 | `"Xvi"` is rejected by the roman-numeral rule |
| `WordFilter.CivilRejected` | src/main.rs:173-179 | the English word `"civil"` is rejected by the roman-numeral rule too |
| `Frequency.Get` | src/main.rs:182 | no contract of its own: a word absent from the table counts as zero, as `or_insert(0)` makes it; `Increment` and `AddTokensCounts` state the counts through it |
| `Frequency.Increment` | src/main.rs:182 | the word's count goes up by one from zero or its old value, the word becomes a key, and no other count changes |
| `Frequency.AddTokensCounts` | src/main.rs:139-184 | after a run of tokens, each word's count has risen by exactly the number of tokens that normalize to it; a key exists only for a word already present or with such a token |
| `Frequency.OccurrencesNormalized` | src/main.rs:144-182 | only normalized words are ever counted |
| `Frequency.AddTokensAppend` | src/main.rs:113-187 | processing one run of tokens after another is processing their concatenation |
| `Frequency.OccurrencesAppend` | src/main.rs:139-182 | the count over a concatenation is the sum of the counts over its parts |
| `Frequency.OccurrencesPermutation` | src/main.rs:139 | a word's count depends only on the multiset of tokens, not their order |
| `Frequency.AddTokensPermutation` | src/main.rs:139-184 | the increments may arrive in any order, as from parallel workers: every permutation of the tokens gives the same table |
| `Frequency.AddTokensGrows` | src/main.rs:182 | no key is removed and no count decreases |
| `Frequency.WrapI32` | src/main.rs:182 | `i32` addition wraps: the result is in range, equals the exact sum modulo 2^32, and is the exact sum whenever that is in range |
| `Frequency.IncrementI32` | src/main.rs:182 | the as-written `i32` increment: the word becomes a key, other counts are unchanged, the new count is in `i32` range and one more than the old count modulo 2^32, and exactly one more whenever the old count is below `i32::MAX` |
| `Frequency.IncrementI32Overflows` | src/main.rs:182 | with `i32` counts, incrementing a count of `i32::MAX` makes it negative (see Findings) |
| `Pipeline.Lines` | src/main.rs:137 | the text splits into at least one line, no line contains `'\n'`, and joining the lines with `'\n'` gives back the text |
| `Pipeline.Tokenize` | src/main.rs:140 | the line splits into at least one token candidate, none contains a space, and joining them with `' '` gives back the line |
| `Pipeline.AddLine` | src/main.rs:140-183 | the per-line loop leaves the table that `AddTokens` specifies for the line's tokens, so each count rises by the line's tokens that normalize to it |
| `Pipeline.AddDocument` | src/main.rs:137-184 | processing a file raises each count by exactly the file's tokens, over all its lines, that normalize to the word; other counts are unchanged, and only such words become new keys |
| `Pipeline.CountCorpus` | src/main.rs:98-187 | starting from an empty table, the final count of every word is the number of tokens over all files that normalize to it; every key is a normalized word with a positive count |
| `Pipeline.ConcatMapAppend` | src/main.rs:113-140 | the tokens of a concatenation of lines (or files) are the concatenation of their tokens |
| `Pipeline.ConcatMapPermutation` | src/main.rs:113-139 | reordering lines or files only reorders the tokens they yield |
| `Pipeline.LineOrderIrrelevant` | src/main.rs:137-139 | a file's lines may be processed in any order with the same resulting table |
| `Pipeline.FileOrderIrrelevant` | src/main.rs:113 | the files may be visited in any order with the same final table |

## Left out

- Opening and reading files, and their abort paths (src/main.rs:114-132): this
  is I/O. A file is its already-decoded text, so the abort of the whole run
  on an unreadable file is not modelled.
- `String::from_utf8_lossy` (src/main.rs:135): a library call. Its output is
  taken as given text.
- Parallel line processing (`par_bridge`) and the sharded concurrent map
  (src/main.rs:98, 139): the model is a sequential loop over a plain map.
  Arbitrary interleaving is covered by `Frequency.AddTokensPermutation` and
  `Pipeline.LineOrderIrrelevant`. That each `entry(..).or_insert(0) += 1`
  runs atomically under the map's shard lock is assumed, not modelled.
- Command-line parsing, logo, console output, progress bar and timing
  (src/main.rs:3-111, 186-198), and the abort when no file matches
  (src/main.rs:86-94): user-interface glue.
- Writing the CSV output (src/main.rs:200-206): I/O.
- Directory traversal with the file-name suffix test
  (src/directory_walker/walker.rs:3-17): a wrapper over a library walker.
- `Pipeline.CountCorpus`: the pipeline's counts are unbounded `nat`, the
  corrected behaviour of the row under Findings. The `i32` wrap is modelled
  only by `Frequency.IncrementI32` and `Frequency.IncrementI32Overflows`. So
  `Pipeline.AddLine`, `Pipeline.AddDocument` and `Pipeline.CountCorpus` agree
  with the source only while every count stays at or below `i32::MAX`.
- `Frequency.IncrementI32Overflows`: models the release build, where `i32`
  addition wraps. A debug build panics on the overflow instead.

## Findings

| source | as written | input that shows it | evidently intended | confidence | as-written member | corrected member |
|---|---|---|---|---|---|---|
| src/main.rs:182 | the count type falls back to `i32`, and `+= 1` wraps to `i32::MIN` once a count passes `i32::MAX` in a release build (a debug build panics) | a corpus in which one word, such as "the", occurs 2,147,483,648 times | an unsigned occurrence count that never decreases | medium; not executed | `Frequency.IncrementI32Overflows` | `Frequency.Increment` |
