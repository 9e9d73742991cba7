# ldgr, modelled in Dafny

ldgr is a small command-line helper for a plain-text ledger file. A
transaction is three lines: a header `<date> <mark><payee>`, a posting
`  <account>  <currency><amount>` and an equity line `  <equity>`. This
project models the engine behind its four file commands:

- `add` appends a transaction built from the configuration;
- `sort` normalises the file, cuts it into date-headed records and writes
  them back in order;
- `clear` offers each due, uncleared header and marks it `* ` on a yes;
- `tag` offers each `Expenses` posting priced in yen and puts the answer in
  place of its `Expenses` prefix.

It also models the `Transaction` record and the layered configuration
(defaults, then the user's settings, then the caller's).

The file's text, `Date.today` (as its `YYYY-MM-DD` text), the home directory,
the user's settings and the answers typed at the prompts are all inputs.
Each command returns the new file text, or for `add` the error message.
`clear` and `tag` also return what they showed. Regular expressions are
written out character by character: `Clearer.ClearMatch`,
`Tagger.TagMatch`, `Tokenizer.ScanUntil` and `Tokenizer.SkipUntil`. The
comments at the head of `clearer.dfy` and `tagger.dfy` say why each match
is unique.

`tag` replaces only the captured prefix: the leading white space,
`Expenses` and the one character after it. The white space between that
character and the yen sign stays, so `  Expenses  ¥2000` answered `alcohol`
becomes `  Alcohol   ¥2000`, with three spaces. The prefix is handed to
`gsub` as a string, so every occurrence of it in the line is replaced, not
only the leading one.

After a successful `add`, the configuration's date may have changed. When
the date is a String, `String(date)` is that String object itself, and
`date << '=' << effective` extends it in place. A Date gives a new string
and is left as it was.

Modules:

| module | file | what it holds |
|---|---|---|
| `Wrappers` | wrappers.dfy | `Option`, `Result` |
| `Text` | text.dfy | Ruby string helpers: `each_line`, `chomp`, `capitalize` (ASCII), byte-wise `<=>` |
| `Transactions` | transaction.dfy | `Value` (nil, String, Date, boolean), the class `Transaction`, its text form and `valid?` |
| `Config` | config.dfy | `defaults` and the `merge` chain of `initialize` |
| `Tokenizer` | tokenizer.dfy | the normalisation of `sort` and its `StringScanner` loop |
| `Sorter` | sorter.dfy | `results.sort`, `puts` of an array, what `sort` writes |
| `Clearer` | clearer.dfy | the header pattern of `clear`, which lines are offered, the `* ` rewrite |
| `Tagger` | tagger.dfy | the posting pattern of `tag`, the substitution, the prompts |
| `Ldgr` | parser.dfy | the class `Parser` and its commands |

Dates are compared as text with `LexLe`, which is Ruby's `String#<=>`. For
well-formed `YYYY-MM-DD` tokens this is the date order. Comparing code points
gives the same order as comparing UTF-8 bytes.

## Model

| member | source | states |
|---|---|---|
| Transactions.Show | lib/ldgr/transaction.rb:30-32 | `String(v)` is empty exactly for nil and the empty string; a String shows as itself |
| Transactions.Block | lib/ldgr/transaction.rb:21-27 | the text form ends in a line break and starts with the date and a space |
| Transactions.BlockLines | lib/ldgr/transaction.rb:21-27 | when no field holds a line break, `each_line` cuts the text into exactly the header, posting and equity lines |
| Transactions.Transaction.constructor | lib/ldgr/transaction.rb:17-19 | a new transaction has every attribute nil |
| Transactions.Transaction.Set | lib/ldgr/transaction.rb:15 | an accessor write changes that attribute and no other |
| Transactions.ToSLines | lib/ldgr/transaction.rb:21-27 | `to_s` is `<date> <cleared><payee>`, `  <account>  <currency><amount>` and `  <equity>`, each ending in a line break |
| Transactions.ToSIgnoresEffective | lib/ldgr/transaction.rb:21-27 | two transactions that differ only in `effective` have the same `to_s` |
| Transactions.ValidIff | lib/ldgr/transaction.rb:29-34 | `valid?` holds exactly when payee, amount and account are all present, whatever the other attributes hold |
| Config.Merge | lib/ldgr/parser.rb:44 | `Hash#merge` keeps every key of both hashes, and the second hash wins |
| Config.Resolve | lib/ldgr/parser.rb:44 | each key takes the caller's value, else the user's, else the default; the five defaulted keys are always present; with no settings, currency is `$` and equity `Cash` |
| Ldgr.Parser.constructor | lib/ldgr/parser.rb:42-45 | the transactions file is always the default path; the configuration is the resolved one |
| Ldgr.Parser.Add | lib/ldgr/parser.rb:84-101 | fills a `Transaction` and returns the old text followed by exactly its `to_s`, or the message for the first missing key, in the fetch order; on success the configuration becomes `AfterAdd` of the old one, on failure it is unchanged |
| Ldgr.BuildEntry | lib/ldgr/parser.rb:87-98 | the block given to `Transaction.new` fetches the keys in order into a fresh transaction and yields `Entry(c)`: its `to_s`, or the message for the first missing key |
| Ldgr.AfterAdd | lib/ldgr/parser.rb:89-97 | after add only the date can change: a String date that differs from the effective date is extended in place to `date=effective`, and a Date is left as it was |
| Ldgr.AddTwice | lib/ldgr/parser.rb:89-100 | a second add on the same parser, after a String date was extended, writes the header token `date=effective=effective` |
| Ldgr.ResolvedEntry | lib/ldgr/parser.rb:85-95 | after the merge, add fails exactly when payee, account or amount was given nowhere, and names the first of them; only key presence is checked |
| Ldgr.EntryLines | lib/ldgr/parser.rb:96-100 | add appends the header `<token> <mark><payee>` (token `date` or `date=effective`), the posting and the equity line |
| Ldgr.AddedHeaderOffered | lib/ldgr/parser.rb:96-97 | for well-formed date tokens and any payee, a header written by add is offered by clear exactly when it was not written cleared, its payee does not start with `*` (such a payee reads as cleared), and its effective date is not after today |
| Ldgr.Parser.Sort | lib/ldgr/parser.rb:176-189 | the text sort writes is `SortOutput` of the file: normalise, scan into records, sort, `puts` |
| Ldgr.Parser.Clear | lib/ldgr/parser.rb:111-138 | the new text is the concatenation of `Clearer.ClearedLines`; the lines shown are `Clearer.Offered`, in file order |
| Ldgr.ClearLines | lib/ldgr/parser.rb:116-135 | the `each_line` loop builds the cleared text line by line and shows each offered line once |
| Ldgr.ClearOne | lib/ldgr/parser.rb:118-134 | one pass of the block: the output grows by the cleared line, and the count and shown lines grow exactly when the line is offered |
| Ldgr.Parser.Tag | lib/ldgr/parser.rb:147-167 | the new text is the concatenation of `Tagger.TaggedLines`; the prompts are `Tagger.Shown` |
| Ldgr.TagOne | lib/ldgr/parser.rb:155-163 | one pass of the block: the line is tagged with the next answer; a prompt is shown and counted exactly when the line matches; `previous` becomes this line chomped |
| Tokenizer.Normalize | lib/ldgr/parser.rb:177 | normalised text has no `\r`, no two line breaks in a row and no white space at either end |
| Tokenizer.NormalizeKeeps | lib/ldgr/parser.rb:177 | normalising normalised text changes nothing |
| Tokenizer.NormalizeDropsSpaceNewline | lib/ldgr/parser.rb:177 | normalising normalised text followed by a space and a line break removes just those two |
| Tokenizer.ScanUntil | lib/ldgr/parser.rb:26 | `scan_until(MATCH)` stops at a line break followed by a date token, or at the end of the text |
| Tokenizer.ScanUntilFirst | lib/ldgr/parser.rb:182 | there is no such boundary before where `scan_until` stops |
| Tokenizer.SkipUntil | lib/ldgr/parser.rb:27 | `skip_until(OTHER_MATCH)` lands on a date token, if it finds one |
| Tokenizer.SkipUntilFirst | lib/ldgr/parser.rb:183 | there is no date token before where `skip_until` lands; with none found there is none left at all |
| Tokenizer.Tokenize | lib/ldgr/parser.rb:178-184 | the scanner loop collects exactly `Records(text)` |
| Tokenizer.RecordsProperties | lib/ldgr/parser.rb:181-184 | records joined by line breaks give the text back; every record is non-empty and clean; none holds a line break followed by a date token; every record after the first starts with a date token |
| Tokenizer.RecordsOfJoin | lib/ldgr/parser.rb:181-184 | joining records of that shape and scanning again gives the same records |
| Sorter.PutsJoins | lib/ldgr/parser.rb:187 | `puts` of records with no final line break writes them joined by line breaks, plus one final line break |
| Sorter.Insert | lib/ldgr/parser.rb:187 | inserting into a sorted sequence keeps it sorted and adds exactly that element |
| Sorter.SortRecords | lib/ldgr/parser.rb:187 | `results.sort` is in non-decreasing order and a permutation of the records |
| Sorter.SortedUnique | lib/ldgr/parser.rb:187 | two sorted permutations of the same records are equal, so the sort result is determined |
| Sorter.SortOutputShape | lib/ldgr/parser.rb:176-188 | the output is the sorted records, a permutation of those scanned, each clean and boundary-free, joined by line breaks with one final line break |
| Sorter.SortIdempotent | lib/ldgr/parser.rb:176-188 | when the normalised text starts with a date token and no record ends in white space, sorting the output again gives the same text |
| Sorter.SortNotIdempotent | lib/ldgr/parser.rb:176-188 | without the second condition it fails: `b \n` followed by `a` sorts to `a\nb \n` and then to `a\nb\n` |
| Clearer.ClearMatch | lib/ldgr/parser.rb:113 | a match of the header pattern ends inside the line, with the token, one space and at least one more character |
| Clearer.ClearMatchShape | lib/ldgr/parser.rb:113 | a matched line is its date token, a space, the captured run without `*`, and a rest that is empty or starts with `*`; the date and any effective date each have the shape `\d{,4}-\d{,2}-\d{,2}` (`LooseDate`) |
| Clearer.LooseDateEndShape | lib/ldgr/parser.rb:113 | a text that the matcher takes for `\d{,4}-\d{,2}-\d{,2}` has that shape: at most four digits, `-`, at most two, `-`, at most two |
| Clearer.ClearMatchHeader | lib/ldgr/parser.rb:113 | a header put together from well-formed tokens and a run without `*` is matched, and its groups give those parts back |
| Clearer.HeaderCandidate | lib/ldgr/parser.rb:118-124 | such a header is offered exactly when it has no effective date, or that date is not after today |
| Clearer.RewriteInserts | lib/ldgr/parser.rb:132 | the rewrite inserts `* ` right after the date token and its space, and changes nothing else |
| Clearer.RewriteNoMatch | lib/ldgr/parser.rb:132 | a rewritten line no longer matches the pattern |
| Clearer.ClearLineChanges | lib/ldgr/parser.rb:118-132 | a line changes exactly when it is offered and the answer holds a `y` or `Y`, and then it gains just `* ` after the token |
| Clearer.ClearLineSettles | lib/ldgr/parser.rb:118-132 | after its turn, a line is still offered only if it was offered and declined |
| Clearer.DefaultDeclines | lib/ldgr/parser.rb:129-131 | a prompt with no answer takes the default `No`, which declines |
| Clearer.OfferedCandidates | lib/ldgr/parser.rb:124-128 | every line shown is a candidate, and no more lines are shown than the file has |
| Clearer.ClearedLinesShape | lib/ldgr/parser.rb:117-134 | clear keeps the number and order of lines, and `each_line` of the new text gives back exactly those lines |
| Clearer.ClearedSettles | lib/ldgr/parser.rb:117-134 | after clear, a line is still offered only if it was offered and declined |
| Tagger.TagMatch | lib/ldgr/parser.rb:149 | a match of the posting pattern lies inside the line; the prefix is at least ten characters (one space, `Expenses`, one more) and the amount at least two |
| Tagger.MatchShape | lib/ldgr/parser.rb:149 | a matched line is white space, `Expenses`, a non-colon character, white space, the yen sign and the rest of the line |
| Tagger.PostingMatches | lib/ldgr/parser.rb:149 | every line of that shape matches, with the prefix and amount in the expected places |
| Tagger.ColonNeverMatches | lib/ldgr/parser.rb:149 | an `Expenses:` posting never matches |
| Tagger.NoYenNeverMatches | lib/ldgr/parser.rb:149 | a line without the yen sign never matches |
| Tagger.ReplaceAllAbsent | lib/ldgr/parser.rb:160 | `gsub` with a pattern that does not occur changes nothing |
| Tagger.ReplaceAllSelf | lib/ldgr/parser.rb:160 | `gsub` replacing a string with itself changes nothing |
| Tagger.TagLineReplaces | lib/ldgr/parser.rb:160 | an answer other than `None` puts two spaces, the capitalised answer and two spaces in place of the leading prefix, and replaces any later copy of it too |
| Tagger.TagLineKeepsRest | lib/ldgr/parser.rb:160 | when the prefix does not occur again, the rest of the line is kept as it is |
| Tagger.PostingRetagged | lib/ldgr/parser.rb:160 | for a posting of the matched shape, tagging gives the replacement followed by the untouched white space, yen sign and amount |
| Tagger.AlcoholReplacement | lib/ldgr/parser.rb:160 | tagging `  Expenses  ¥2000`, with or without its line break, with the answer `alcohol` gives `  Alcohol   ¥2000`, three spaces before the yen sign |
| Tagger.TagLineShaped | lib/ldgr/parser.rb:160 | tagging keeps a line a single line, and keeps whether it ends in a line break |
| Tagger.TaggedNotOffered | lib/ldgr/parser.rb:149-160 | a tagged posting no longer matches, for every answer other than `None`, the empty answer and answers starting with white space included, unless the capitalised answer itself starts with `Expenses` |
| Tagger.MatchesSound | lib/ldgr/parser.rb:155-157 | the prompted lines are matching lines, in strictly increasing file order |
| Tagger.MatchesComplete | lib/ldgr/parser.rb:155-157 | every matching line is prompted, after one prompt for each matching line before it |
| Tagger.PromptOf | lib/ldgr/parser.rb:158 | matching line `i` gets the prompt numbered by the matching lines before it |
| Tagger.PromptShows | lib/ldgr/parser.rb:158-162 | the prompt is a line break, the previous line as written out and chomped (empty for the first line), a space and the amount |
| Tagger.TaggedLinesShape | lib/ldgr/parser.rb:154-164 | tag keeps the number and order of lines, and `each_line` of the new text gives back exactly those lines |
| Text.EachLine | lib/ldgr/parser.rb:117 | `each_line` cuts the text into lines that concatenate back to it, each ending in a line break except perhaps the last |
| Text.EachLineConcat | lib/ldgr/parser.rb:154 | `each_line` of the concatenation of such lines gives those lines back |
| Text.Capitalize | lib/ldgr/parser.rb:160 | `capitalize` keeps the length, upper-cases the first letter and lower-cases the rest (ASCII) |

## Left out

- File I/O is a parameter or a result: `File.open`, `File.read` and `IO.write`. The file's text is passed in, and the new text is returned.
- `ask` and `puts` are left out of the prompts. The answers are a sequence given in advance. A missing answer takes the default, `No` for clear and `None` for tag. What is shown is returned as a sequence.
- `Date.today` is a parameter, and so is the home directory behind `FILEBASE`.
- `user_config` reads a YAML file. Its result is a parameter here.
- `parse`, `setup` and `open` are command-line and filesystem plumbing, and are not modelled. So is the `-f` option, which `parse` writes into the configuration but which `initialize` never reads. The transactions file is therefore always the default path.
- `Date.parse` is lenient, but only well-formed `YYYY-MM-DD` tokens are modelled. For them, text order is date order. The pattern itself is modelled in full, short digit runs included, and a line it matches whose effective date is not a well-formed token is compared as text.
- Backslash escapes in `gsub` replacements are not modelled. Answers are taken literally.
- `Text.Capitalize` handles ASCII only. Ruby's Unicode case mapping is not modelled.
- Answers are assumed to be single lines (`Tagger.TaggedLinesShape` requires it). An answer holding a line break would split a line.
- Sorter.SortIdempotent: it carries one more hypothesis than "the normalised text starts with a date token", namely that no record ends in white space. `Sorter.SortNotIdempotent` proves that without it a second sort can change the text.
- Tagger.TaggedNotOffered: it excludes answers whose capitalised form starts with `Expenses`. After such an answer the posting still matches, and the next run of tag offers it again.
- Sorter.SortOutputShape: a file without records gives the empty text, because `Sorter.Puts` of an empty array writes nothing. Ruby's `puts []` writes one line break.
- Ldgr.Parser.Add: the field `transactionsFile` and the file's name play no part. The method returns the new text instead of appending to a file.
- Ldgr.Parser.Add: frozen strings are not modelled. Every String date in the configuration is taken to be unfrozen, and is extended in place. A frozen one (a literal from a file with `frozen_string_literal: true`, or the frozen text Ruby 2.7 and later gives for `String(nil)`, `String(true)` and `String(false)`) makes `date << '='` raise `FrozenError`, and nothing is written. The model writes the entry instead.
- Concurrent runs of ldgr on the same file are not modelled.
