# Word counter: the text-statistics routine

This project models `count_english_words`, the routine at the heart of the
word-count web page, and proves what it computes. The routine takes the
decoded text of an uploaded file and returns three things:

- `total`: the number of words;
- `unique`: the number of distinct words;
- a frequency table of (word, count) rows, ordered by count, largest first.

It works in three stages, and each stage has its own module:

- **Chars** (`chars.dfy`) holds the character classes. It has Python's
  `string.punctuation`: the 32 printable ASCII characters that are not
  letters, digits or the space. It has the characters `str.split()` and
  `str.strip()` treat as whitespace. It also has ASCII case folding.
- **Tokenizer** (`tokenizer.dfy`) is stage one. The text is lower-cased and
  then stripped of punctuation, in the order the source does it (`lower()`,
  then `translate`). A deleted character is not replaced by anything. The
  text is then split on runs of whitespace, and each piece is stripped and
  kept only if it is non-empty.
- **Frequency** (`frequency.dfy`) is stages two and three. A Python `Counter`
  is a dictionary that keeps its keys in first-insertion order. It is
  modelled as the sequence of its items (`Row(word, count)`), built one word
  at a time by `Bump`, which is `counter[word] += 1`. The table is those
  items sorted by count, descending.
- **WordCount** (`word_count.dfy`) puts the stages together as
  `CountEnglishWords`, which returns `WordStats(total, unique, frequency)`.

The whitespace set is Python's full set for `str.split()` without
arguments. It has tab, line feed, vertical tab, form feed, carriage return,
U+001C to U+001F and the space. It also has U+0085, U+00A0, U+1680,
U+2000 to U+200A, U+2028, U+2029, U+202F, U+205F and U+3000.

The table is sorted with pandas `sort_values`. Its default algorithm is not
stable, so the source does not fix the order of rows with equal counts. The
model therefore proves its table facts for every reordering of the counter's
items (`FrequencyTable`). It proves that the count column is the same for
every tie order (`TieOrderKeepsCounts`). `SortByCountDesc` is one such
ordering, and the model claims nothing about the order it gives to ties.
`sort_values` is called without `kind="stable"`, so ties have no
guaranteed order.

## Model

| member | source | states |
|---|---|---|
| `Chars.IsPunctuation` | word_count_webapp.py:35 | the deletion table of `string.punctuation`, as four ASCII code ranges; `PunctuationTable` proves it is membership in the 32-character table and `PunctuationIsAsciiSymbols` that it is printable ASCII minus letters and digits |
| `Chars.IsWhitespace` | word_count_webapp.py:37 | the characters `str.split()` and `str.strip()` treat as whitespace; `SplitAtWhitespace` proves each of them separates words and `ToLowerKeepsWhitespace` that lower-casing keeps the set |
| `Chars.ToLower` | word_count_webapp.py:36 | ASCII case folding: the result is never an upper-case letter; an upper-case letter becomes the same letter in lower case; every other character is unchanged; being punctuation is unchanged |
| `Chars.ToLowerKeepsWhitespace` | word_count_webapp.py:36-37 | case folding never makes or removes whitespace, so lower-casing cannot move a split point |
| `Chars.PunctuationIsAsciiSymbols` | word_count_webapp.py:35 | a character is punctuation iff it is printable ASCII (`!` to `~`) and not a letter or a digit |
| `Chars.PunctuationTableSize` | word_count_webapp.py:35 | the punctuation table has 32 characters in strictly increasing order, so none repeats |
| `Chars.PunctuationTable` | word_count_webapp.py:35 | the range predicate used by the model agrees with membership in the 32-character table |
| `Tokenizer.Lower` | word_count_webapp.py:36 | `text.lower()`, character by character with `ToLower`; `TokenizeIgnoresCase` states its effect on the tokens |
| `Tokenizer.DeletePunctuation` | word_count_webapp.py:35-36 | the result holds exactly the characters of the input that are not punctuation; a text without punctuation is returned unchanged; with `DeletePunctuationAppend` (deletion distributes over concatenation) this fixes it as deletion one character at a time |
| `Tokenizer.DeletePunctuationAppend` | word_count_webapp.py:35-36 | deleting punctuation from a concatenation is the concatenation of the deletions |
| `Tokenizer.Clean` | word_count_webapp.py:35-36 | lower-case first, then delete punctuation, in the source's order; `CleanChars`, `CleanShape`, `CleanAppend` and `CleanOrderIrrelevant` state its properties |
| `Tokenizer.CleanChars` | word_count_webapp.py:35-36 | a character is in the cleaned text iff it is not punctuation and is the case-folding of some character of the text |
| `Tokenizer.CleanShape` | word_count_webapp.py:35-36 | the cleaned text holds no punctuation and no upper-case ASCII letter |
| `Tokenizer.CleanAppend` | word_count_webapp.py:35-36 | cleaning distributes over concatenation |
| `Tokenizer.CleanOrderIrrelevant` | word_count_webapp.py:35-36 | lower-casing then deleting punctuation equals deleting punctuation then lower-casing |
| `Tokenizer.Split` | word_count_webapp.py:37 | every piece is non-empty, and every character of a piece is a non-whitespace character of the text |
| `Tokenizer.Strip` | word_count_webapp.py:37 | the result neither starts nor ends with whitespace; a piece without whitespace is returned unchanged |
| `Tokenizer.KeepStripped` | word_count_webapp.py:37 | the list comprehension keeps only non-empty strings; it is the identity on non-empty, whitespace-free pieces |
| `Tokenizer.SplitKeepsText` | word_count_webapp.py:37 | the pieces, written back to back, are the text with its whitespace removed, in text order |
| `Tokenizer.SplitEmpty` | word_count_webapp.py:37 | splitting gives no pieces iff the text is all whitespace |
| `Tokenizer.SplitJoin` | word_count_webapp.py:37 | splitting undoes joining with single spaces, for non-empty words without whitespace |
| `Tokenizer.SplitWordThen` | word_count_webapp.py:37 | a non-empty word without whitespace, followed by nothing or by whitespace, is the first piece of the split |
| `Tokenizer.WordLengthBeforeWhitespace` | word_count_webapp.py:37 | a word ends at the first whitespace character, so whitespace appended after a text does not lengthen its first word |
| `Tokenizer.SplitAtWhitespace` | word_count_webapp.py:37 | every whitespace character (a space, a newline, a tab, one of a run) separates words: splitting at it splits the two sides independently; with `SplitWordThen` this fixes the split of every text |
| `Tokenizer.Tokenize` | word_count_webapp.py:35-37 | the token list: split of the cleaned text, each piece stripped and kept if non-empty; `TokenizeIsSplit`, `TokenShape`, `TokensKeepOrder`, `TokenizeAtWhitespace` and `PunctuationIsDeleted` state its properties |
| `Tokenizer.TokenizeIsSplit` | word_count_webapp.py:35-37 | the tokens are exactly the whitespace split of the lower-cased, punctuation-deleted text; the strip-and-filter step drops nothing |
| `Tokenizer.TokenShape` | word_count_webapp.py:35-37 | every token is non-empty and holds no whitespace, no punctuation and no upper-case ASCII letter |
| `Tokenizer.TokensKeepOrder` | word_count_webapp.py:35-37 | the tokens, written back to back, are the cleaned text without its whitespace, so they appear in text order |
| `Tokenizer.PunctuationIsDeleted` | word_count_webapp.py:35-36 | deleting one punctuation character anywhere in the text leaves the tokens unchanged, so punctuation never separates words |
| `Tokenizer.TokenizeAtWhitespace` | word_count_webapp.py:35-37 | whitespace is a separator: the tokens of a text with a whitespace character in it are the tokens of the part before it followed by those of the part after it |
| `Tokenizer.WordWithPunctuationIsOneToken` | word_count_webapp.py:35-37 | a word with a punctuation character inside it (`Let's`, `a.b`) is a single token: the word without that character, lower-cased |
| `Tokenizer.TokenizeWord` | word_count_webapp.py:35-37 | a non-empty word with no whitespace and no punctuation is exactly one token, the word lower-cased |
| `Tokenizer.TokenizeIgnoresCase` | word_count_webapp.py:36 | texts that differ only in the case of ASCII letters give the same tokens |
| `Tokenizer.TokenizeEmpty` | word_count_webapp.py:35-37 | there are no tokens iff every character of the text is punctuation or whitespace, the empty text included |
| `Tokenizer.CleanAllWhitespace` | word_count_webapp.py:35-36 | the cleaned text is all whitespace iff the text is made of punctuation and whitespace |
| `Tokenizer.JoinedTokensAreClean` | word_count_webapp.py:35-36 | cleaning leaves the space-joined list of well-formed tokens unchanged |
| `Tokenizer.TokenizeIdempotent` | word_count_webapp.py:35-37 | tokenizing the space-joined tokens of a text gives the same tokens |
| `Frequency.WordSet` | word_count_webapp.py:41 | `set(words)`; `WordSetBound` and `CounterItems` state its size against the words and the counter |
| `Frequency.Lookup` | word_count_webapp.py:42 | the counter's lookup with a default of 0; `Counter` proves it equals the number of occurrences of every word |
| `Frequency.Bump` | word_count_webapp.py:42 | one counter update: a known word keeps its place and its count rises by one; a new word is appended with count 1; every other lookup is unchanged; the total rises by one |
| `Frequency.Counter` | word_count_webapp.py:42 | the counter's keys are exactly the distinct words, each once; looking up any word gives its number of occurrences (0 if absent); every count is at least 1; the counts sum to the number of words |
| `Frequency.CounterItems` | word_count_webapp.py:41-42 | the counter has one item per distinct word, and each item's count is its word's number of occurrences |
| `Frequency.WordSetBound` | word_count_webapp.py:40-41 | there are never more distinct words than words |
| `Frequency.InsertByCount` | word_count_webapp.py:45-48 | inserting a row into a table sorted by descending count keeps it sorted and adds exactly that row |
| `Frequency.SortByCountDesc` | word_count_webapp.py:45-48 | the result is sorted by descending count and is a permutation of the input rows |
| `Frequency.PermutationKeepsSum` | word_count_webapp.py:45-48 | reordering the rows does not change the total of the counts |
| `Frequency.PermutationKeepsWords` | word_count_webapp.py:45-48 | reordering the rows does not change the multiset of words |
| `Frequency.PermutationKeepsCounts` | word_count_webapp.py:45-48 | reordering the rows does not change the multiset of counts |
| `Frequency.FrequencyTable` | word_count_webapp.py:40-48 | for every reordering of the counter's items: one row per distinct word and no word twice; each count is at least 1 and equals its word's occurrences; the counts sum to the number of words |
| `Frequency.SortedCountsEqual` | word_count_webapp.py:48 | two tables sorted by descending count with the same multiset of counts have the same count column |
| `Frequency.TieOrderKeepsCounts` | word_count_webapp.py:45-48 | any two count-descending orderings of the counter's items have the same count column, whatever the order of ties |
| `WordCount.CountEnglishWords` | word_count_webapp.py:30-54 | `unique <= total`; the table has `unique` rows; its counts sum to `total`; it is sorted by descending count |
| `WordCount.FrequencyRows` | word_count_webapp.py:42-48 | the table is a permutation of the counter's items; its words are exactly the distinct tokens, each once; each row's count is at least 1 and is that token's number of occurrences |
| `WordCount.FrequencyWordsAreTokens` | word_count_webapp.py:35-48 | every word in the table is a well-formed token |
| `WordCount.EmptyText` | word_count_webapp.py:35-48 | `total == 0` iff the text is only punctuation and whitespace; then `unique == 0` and the table is empty |
| `WordCount.CaseIsIgnored` | word_count_webapp.py:36-42 | texts that differ only in ASCII letter case have identical statistics, so `Hello` and `hello` count as one word |

## Left out

- Lower-casing covers ASCII letters only. Python's `str.lower()` also folds
  non-ASCII letters, and sometimes into more than one character. The model
  leaves every non-ASCII character as it is.
- The page layout, styling, title, metrics, table widget and captions
  (word_count_webapp.py:7-27, 56-117) are presentation only.
- File upload and decoding (word_count_webapp.py:63-105) are left out. That
  covers UTF-8 with a GBK fallback and the catch-all error message. This is
  I/O and byte decoding done by foreign libraries. The model starts from the
  decoded text. The fallback calls `read()` a second time on a stream that
  has already been read, so it decodes whatever that call returns. That is
  not part of this model either.
- Batch processing of several files, with totals and word unions across
  files, does not exist in this source. Only one uploaded file is handled,
  so it is not modelled.
- The sample caption claims 18 words and 13 distinct words
  (word_count_webapp.py:113). Applied to that sample text, the routine
  gives 20 words and 15 distinct words. The caption is display text and is
  not modelled.
- The table's column names and its reset index (word_count_webapp.py:47-48)
  are display details. A row is modelled as `Row(word, count)`.
- `Frequency.SortByCountDesc` is a stable insertion sort chosen as one
  ordering the source may produce. The properties proved about the table
  hold for every ordering the unstable sort may produce.
