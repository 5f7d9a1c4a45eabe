# The bilby reader and command-line tokenizer, in Dafny

This project models the front end of bilby, a small Lisp-like compiled language. It covers two parts.

The reader (`src/parser.hpp`, `src/parser.cpp`) turns source text into a tree of forms. A form is an unsigned 64-bit integer, an identifier, or a parenthesised compound of forms. Any form may carry a type annotation written after `::`.

The reader is made of these parts:

- a source stream with line and column tracking;
- a recursive-descent parser whose sub-parsers answer `SUCCESS`, `NEXT` (this alternative does not apply) or `FAIL` with diagnostics;
- the printer `Form::toString`.

The command-line tokenizer (`src/cli-options.cpp`, `src/cli-options.hpp`) turns `argv` into a list of key/value options.

Modules:

- `Chars` (chars.dfy): the C-locale character classes on ASCII, and decimal numerals.
- `Streams` (stream.dfy): `ParserStream`.
  - A copy of a stream holds a reference to its parent's index, and `consume` writes through it.
  - Here a copy instead records the index it committed (`Child(committed)`), and `Release` writes that index into the parent when the copy is dropped.
  - `consume` on a root stream moves nothing.
- `Optional`, `Forms` (optional.dfy, form.dfy): the `Form` datatype and the printer.
- `Reader` (reader.dfy): the sub-parsers as pure functions from a stream to an outcome and the stream they leave.
  - Termination is measured by the characters left and a rank per sub-parser.
  - `parseDecimal` is modelled twice: as written, and with an exact overflow check. The parser uses the exact one (see Findings).
- `Overflow` (overflow.dfy): the overflow check as written, compared with the exact one.
- `RoundTrip` (roundtrip.dfy): printing a form and reading the text back gives the form.
- `ReaderProps` (props.dfy) covers these reader properties:
  - the diagnostics a failure carries;
  - source order of the forms read;
  - blank and rejected inputs;
  - where "Unmatched parentheses." is reported;
  - the three endings of the type-annotation lookahead;
  - worked examples.
- `CliOptions` (cli_options.dfy): token classification, the reversed option list, and lookup.

## Where the code and its description differ

The model follows the code in each case below, with one exception: the as-written overflow check of `parseDecimal` is modelled only by `Reader.ParseDecimalAsWritten` and the `Overflow` module. The rest of the reader is built on the corrected `Reader.ParseDecimal` (last item, and Findings).

- **`consume` writes only the index to the parent.** The parent's line, column and start coordinates stay put. The annotation lookahead after an element commits the whitespace it skipped, but the enclosing stream's column does not move. Later diagnostics can therefore report an earlier column or line. In `a  b::` the missing annotation of `b` is reported at `1:3`. The column just after `b` is 5, but the two spaces the lookahead after `a` committed were never counted (`ReaderProps.LagColumn`).
- **`NEXT` is not always a rollback.** The identifier rule reads characters and then answers `NEXT` when a non-printable character follows them. Those characters stay read (`Reader.IdentifierReadsRun`).
- **Only end of input after `::` gets a diagnostic.** There, the lookahead fails with "Expected type annotation.". When the annotation element itself does not succeed, the lookahead fails with no diagnostic, and the element's own diagnostics are dropped (`ReaderProps.AnnotationFollows`).
- **Some failures carry no diagnostic.** A stray `)` or a non-printable character where a form should start fails the whole parse with no diagnostic (`ReaderProps.TopLevelRejects`).
- **The overflow check misses some values.** It catches a wrap of `10 * integer` but not a wrap caused by adding a digit, at any position in the numeral. The value wraps to a small one and the following digits are read on from there. `18446744073709551616` (2^64) reads as 0, and `184467440737095516160` (10 * 2^64) also reads as 0 (Findings).
- **An unmatched parenthesis is never a silent success, but it is not always reported as one.** Every accepted text has as many `(` as `)` (`Parentheses.ParsedParenthesesBalance`). When the input ends inside an annotation, as in `(a::`, the parse fails with "Expected type annotation." instead (`ReaderProps.UnmatchedInsideAnnotation`).

## Model

| member | source | states |
|---|---|---|
| Chars.IsSpace | src/parser.cpp:23-39 | Whitespace is the space and the characters 9 to 13 (tab, newline, vertical tab, form feed, carriage return), as `isspace` in the C locale. |
| Chars.IsPrint | src/parser.cpp:152-188 | `isprint` in the C locale: exactly the codes 0x20 to 0x7E. The only printable whitespace character is the space. |
| Chars.IsDigit | src/parser.cpp:41-75 | `isdigit`: exactly the codes 0x30 to 0x39, which are printable and not whitespace. |
| Chars.IsSpecial | src/parser.cpp:13-15 | The delimiters are exactly `(`, `)` and `:` (codes 0x28, 0x29, 0x3A), which are printable, not whitespace and not digits. |
| Chars.NatToDecimal | src/parser.hpp:59-65 | `std::to_string` of a count: a non-empty numeral of exactly that value, without leading zeros (it starts with `0` only when it is `0`). |
| Streams.NewStream | src/parser.hpp:21-23 | A stream built from a text is a root at index, line and column 0, with start coordinates 0:0. |
| Streams.Peek | src/parser.hpp:32-41 | Past the end of the text the current character is a space, so the end of input looks like whitespace; before it, it is the character at the index. |
| Streams.Read | src/parser.hpp:42-53 | A read moves the index by exactly one, also past the end. A newline moves to the next line at column 0; any other character moves one column right. Start coordinates and link are unchanged. |
| Streams.Copy | src/parser.hpp:24-31 | A copy starts at its parent's index, line and column. Its start coordinates are the parent's current line and column, and it is linked to the parent's index. |
| Streams.Consume | src/parser.hpp:54-58 | Consume commits the current index to what the stream is linked to and sets the start coordinates to the current line and column. A root stays a root, and its index does not change. |
| Streams.Release | src/parser.hpp:24-31 | Dropping a copy sets the parent's index to the last index the copy committed. Nothing else of the parent changes. |
| Streams.CoordsToString | src/parser.hpp:59-65 | The coordinates print as the decimal of start line + 1, a colon, and the decimal of start column + 1, with nothing else: the length is that of the two numerals plus one. |
| Streams.ReadsTrackCoords | src/parser.hpp:42-53 | After n in-bounds reads, the line is the old line plus the newlines passed. The column is the old column plus n when no newline was passed, and otherwise the length of the last line. |
| Streams.CopyReadsInvisible | src/parser.hpp:24-31 | Reads on a copy that never consumes leave the parent exactly as it was. |
| Streams.ConsumeCommitsIndexOnly | src/parser.hpp:54-58 | A copy that reads n characters and consumes moves the parent's index by n. The parent's line, column and start coordinates are untouched. |
| Reader.DefaultStatus | src/parser.hpp:176-182 | A fresh status is the not-applicable answer and carries no diagnostics. |
| Reader.SkipSpaces | src/parser.cpp:27-36 | The skip loop reads exactly the maximal run of whitespace at the index. |
| Reader.ParseWhitespace | src/parser.cpp:23-39 | Whitespace skipping reads the maximal whitespace run, possibly empty, and always consumes. It succeeds iff it stops before the end of the text, and otherwise fails with no diagnostic. |
| Reader.DecimalLoopFits | src/parser.cpp:54-68 | Corrected reader, which here agrees with the code as written (`Overflow.AsWrittenAgreesWhenFits`): when the digit run's value fits in 64 bits, the loop reads the whole run and yields its value. |
| Reader.DecimalLoopOverflows | src/parser.cpp:54-68 | Corrected reader: when the run's value does not fit, the loop fails with the overflow diagnostic. It stops just before the first digit whose addition overflows. |
| Reader.DecimalReadsRun | src/parser.cpp:41-75 | Corrected reader: the decimal reader answers `Next` without reading iff there is no digit. It succeeds iff the run's value fits in 64 bits, yielding that value and consuming the run. Otherwise it fails with the overflow diagnostic at the start coordinates. |
| Reader.ParseDecimal | src/parser.cpp:41-75 | Corrected reader, in the respects it shares with the code as written: the decimal reader answers `Next` iff the current character is not a digit, and then leaves the stream as it was. A success reads at least one character. |
| Reader.ParseDecimalAsWritten | src/parser.cpp:41-75 | The decimal reader as written answers `Next` iff the current character is not a digit, and then leaves the stream as it was. A success reads at least one character. |
| Reader.DecimalLoopAsWritten | src/parser.cpp:54-68 | The digit loop as written succeeds or fails, never answers `Next`. It keeps the text and the link and never moves the index back. |
| Reader.ParseHexadecimal | src/parser.cpp:77-85 | The hexadecimal reader never succeeds and never fails: it answers `Next` and leaves the stream as it was. |
| Reader.WrapDetectedExactly | src/parser.cpp:59-61 | The wrap test as written fires iff ten times the value so far reaches 2^64, whatever the digit. |
| Reader.ParseInt | src/parser.cpp:87-108 | The integer reader answers `Next` iff there is no digit, and then leaves the stream alone. A success is an integer form without annotation that has read at least one character. |
| Reader.IntReadsRun | src/parser.cpp:77-108 | Corrected reader: since the hexadecimal reader never applies, the integer reader's answer is the decimal reader's answer: the run's value as an integer form, or the same failure. |
| Reader.ParseIdentifier | src/parser.cpp:152-188 | The identifier reader answers `Next` without reading unless the character may start an identifier. It never fails, and a success is an identifier without annotation that has read at least one character. |
| Reader.NameLoopReadsRun | src/parser.cpp:166-178 | The identifier loop reads the whole run of name characters. It then succeeds with the name if whitespace, a delimiter or the end follows. Otherwise it answers `Next`, leaving the run read. |
| Reader.IdentifierReadsRun | src/parser.cpp:152-188 | The identifier is the first character plus the following run of name characters, consumed. A non-printable character after that run gives `Next` with the run left read. At the end of input the space the stream shows is read as the name. |
| Reader.IdentifierShape | src/parser.cpp:152-188 | A name read is non-empty, starts with a character that may start an identifier, and contains no colon, parenthesis or whitespace after its first character. |
| Reader.ParseElement | src/parser.cpp:190-200 | Trying integer, identifier, then parenthesised form keeps the stream's text and never moves the index back. A success on unfinished input reads at least one character and has no annotation. |
| Reader.ParseCompoundForm | src/parser.cpp:190-242 | An element with its annotation lookahead keeps the text and never moves the index or the committed index back. A success on unfinished input reads at least one character. |
| Reader.ParseForm | src/parser.cpp:110-150 | The form reader answers `Next` iff the current character is not `(`, and then leaves the stream as it was. A success is an unannotated compound that has read at least one character. |
| Reader.Annotate | src/parser.cpp:201-237 | The annotation lookahead never answers `Next`, and never moves the index back. A success is the element itself, differing at most in its annotation. |
| Reader.FormItems | src/parser.cpp:121-138 | The loop inside parentheses never answers `Next`: it either closes the form or fails. |
| Reader.TopLevel | src/parser.cpp:247-258 | The top-level loop never answers `Next`, and it succeeds only at the end of the input. |
| Reader.Parse | src/parser.cpp:244-269 | The parse never answers `Next`. A success is an unannotated compound, and it has read to the end of the input. |
| Reader.ParseText | src/parser.cpp:244-269 | Parsing a text never answers `Next`, and a success is the unannotated root compound. |
| Parentheses.WhitespaceBalance | src/parser.cpp:23-39 | The whitespace a skip reads holds no parenthesis. |
| Parentheses.IdentifierBalance | src/parser.cpp:152-188 | Whatever the identifier rule reads, successful or not, holds as many `(` as `)`. |
| Parentheses.CompoundBalance | src/parser.cpp:190-242 | A compound form read with its annotation holds as many `(` as `)`. |
| Parentheses.AnnotateBalance | src/parser.cpp:201-237 | A successful annotation lookahead reads balanced text: whitespace, or whitespace, `::`, whitespace and a balanced form. |
| Parentheses.FormBalance | src/parser.cpp:110-150 | A parenthesised form read successfully holds as many `(` as `)`. |
| Parentheses.ItemsBalance | src/parser.cpp:121-138 | The children of a form up to and including its `)` hold one more `)` than `(`. |
| Parentheses.TopBalance | src/parser.cpp:247-258 | The top-level loop reads balanced text when it succeeds. |
| Parentheses.ParsedParenthesesBalance | src/parser.cpp:244-269 | A text the parse accepts holds as many `(` as `)`: an unmatched parenthesis never reads as a success. |
| Overflow.AsWrittenNextIffNoDigit | src/parser.cpp:47-50 | The decimal reader as written answers `Next` iff there is no digit, leaving the stream unchanged. |
| Overflow.AsWrittenYieldsModulo | src/parser.cpp:41-75 | A success of the decimal reader as written yields the run's value modulo 2^64 and consumes the whole run. |
| Overflow.AsWrittenAgreesWhenFits | src/parser.cpp:41-75 | On every run whose value fits in 64 bits, the reader as written and the exact reader agree on answer and stream. |
| Overflow.AsWrittenAcceptsIff | src/parser.cpp:41-75 | The reader as written accepts a digit run iff no proper prefix of it, reduced modulo 2^64, reaches 2^64 when multiplied by ten. A prefix of value 2^64 or more passes when its reduced value is small. |
| Overflow.AsWrittenAcceptsLastDigitWrap | src/parser.cpp:59-66 | The reader as written accepts every run whose value without its last digit is 2^64 / 10 rounded down, although the value itself need not fit. |
| Overflow.LastDigitWrapAccepted | src/parser.cpp:59-65 | The numerals of 2^64 to 2^64 + 3 are read as 0 to 3 by the code as written, while the exact reader reports "1:1: Integer larger than 64 bits.". |
| Overflow.MidRunWrapAccepted | src/parser.cpp:59-65 | With the wrap before the last digit: the numeral of 10 * (2^64 + e) + d, for e at most 3 and any digit d, is read as 10 * e + d by the code as written, while the exact reader reports "1:1: Integer larger than 64 bits.". |
| Forms.ToString | src/parser.hpp:135-165 | The printed text of a printable form holds as many `(` as `)`. |
| Forms.Body | src/parser.hpp:135-165 | The printed text of a printable form without its annotation holds as many `(` as `)`. |
| Forms.Join | src/parser.hpp:140-153 | Printable children printed one after another hold as many `(` as `)`. |
| Forms.DepthCounts | src/parser.hpp:135-165 | The depth used to state balance is the count of `(` less the count of `)`. |
| RoundTrip.FirstChar | src/parser.hpp:135-165 | The printed text of a printable form is non-empty. It starts with neither whitespace nor `)`, with a digit iff the form is an integer, and with `(` iff it is a compound. |
| RoundTrip.JoinLayout | src/parser.hpp:140-153 | Children are printed one after another, separated by exactly one space. After each child comes a boundary that the lookahead does not take for `::`. |
| RoundTrip.IntegerReadsBack | src/parser.cpp:87-108 | A printed integer followed by a delimiter, whitespace or the end reads back as that integer, consuming its digits. |
| RoundTrip.IdentifierReadsBack | src/parser.cpp:152-188 | A valid name followed by a delimiter, whitespace or the end reads back as that identifier, consuming the name. |
| RoundTrip.CompoundReadsBack | src/parser.cpp:110-150 | A printed compound reads back as the same children, consuming up to its `)`. |
| RoundTrip.ItemsReadBack | src/parser.cpp:121-138 | Printed children followed by `)` read back as those children, in order, after the ones read before. |
| RoundTrip.AnnotateSome | src/parser.cpp:224-236 | `::` and a printed form after an element make that form the element's annotation. |
| RoundTrip.ElementReadsBack | src/parser.cpp:190-242 | A printed form, annotated or not, reads back as itself wherever it stands, when the text after it closes the element and does not open an annotation. |
| RoundTrip.TopReadsBack | src/parser.cpp:247-258 | Printed top-level forms up to the end of input read back as those forms, in order. |
| RoundTrip.PrintedSequenceReadsBack | src/parser.cpp:244-269 | Parsing the printed text of a sequence of printable forms gives the root compound of exactly those forms. |
| RoundTrip.PrintedFormReadsBack | src/parser.hpp:135-165 | Printing a printable form and parsing the text gives the root compound holding just that form. |
| ReaderProps.IntDiagnostics | src/parser.cpp:59-65 | The integer reader fails only with the single overflow diagnostic. |
| ReaderProps.AnnotateDiagnostics | src/parser.cpp:224-233 | The annotation lookahead fails either with no diagnostic or with the single "Expected type annotation." diagnostic. |
| ReaderProps.ItemsDiagnostics | src/parser.cpp:121-138 | A failing form carries at most one diagnostic, and it is one of the reader's three. |
| ReaderProps.ParseDiagnostics | src/parser.cpp:244-269 | A failed parse carries at most one diagnostic. It is start coordinates followed by "Integer larger than 64 bits.", "Unmatched parentheses." or "Expected type annotation.". |
| ReaderProps.ItemsAccumulate | src/parser.cpp:121-138 | The children collected before stand unchanged in front of those read after them, so the children of a form keep their source order. |
| ReaderProps.TopAccumulate | src/parser.cpp:247-258 | The top-level forms keep their source order in the same way. |
| ReaderProps.BlankInputReadsEmpty | src/parser.cpp:244-269 | The parse gives the empty root compound iff the input is empty or whitespace only. |
| ReaderProps.NothingApplies | src/parser.cpp:190-200 | At `)` or a non-printable character every alternative answers `Next` without reading. |
| ReaderProps.TopLevelRejects | src/parser.cpp:247-258 | A stray `)` or non-printable character where a top-level form should start fails the parse with no diagnostic. |
| ReaderProps.ItemsRejectUnprintable | src/parser.cpp:121-138 | A non-printable character where a child should start fails the form with no diagnostic. |
| ReaderProps.UnmatchedAtEnd | src/parser.cpp:121-127 | The end of input before `)` fails with "Unmatched parentheses.". It is reported at the start coordinates left by the final whitespace skip, which is where this stream's line and column reach at the end of the text. |
| ReaderProps.AnnotationAbsent | src/parser.cpp:201-223 | Without `::` after the whitespace, including a single `:`, the element stands unannotated. The enclosing index moves over that whitespace and no further, and the enclosing line and column stay put. |
| ReaderProps.AnnotationAtEnd | src/parser.cpp:224-229 | `::` followed by nothing but whitespace fails with "Expected type annotation.". It is reported at the enclosing stream's start coordinates, which the element's consume set to the line and column just after the element. |
| ReaderProps.AnnotationFollows | src/parser.cpp:224-236 | After `::` and optional whitespace, the next element becomes the annotation, and the enclosing index moves past it. If that element does not succeed, the lookahead fails with no diagnostic. |
| ReaderProps.AnnotationsNestRight | src/parser.cpp:224-236 | `a::b::c` reads as `a` annotated with `b` annotated with `c`. |
| ReaderProps.OpenParenthesisAlone | src/parser.cpp:121-127 | `(` alone fails with "1:2: Unmatched parentheses.". |
| ReaderProps.LagColumn | src/parser.cpp:201-229 | `a  b::` fails with "1:3: Expected type annotation.". The column just after `b` is 5, less the two spaces the lookahead after `a` committed without moving the column. |
| ReaderProps.UnmatchedInsideAnnotation | src/parser.cpp:224-229 | `(a::` fails with "1:3: Expected type annotation.", not with "Unmatched parentheses.". |
| CliOptions.Empty | src/cli-options.hpp:9-13 | `Option()` has empty key and value and is valid. |
| CliOptions.KeyValue | src/cli-options.hpp:14-18 | `Option(key, value)` keeps both as given and is valid. |
| CliOptions.Invalid | src/cli-options.cpp:14-18 | The option for the terminating null entry has empty key and value and is not valid. |
| CliOptions.LongOption | src/cli-options.cpp:28-40 | For `--REST`, the key has no `=`. With an `=` in the token, the token is `--` + key + `=` + value, so the split is at the first `=`. Without one, the key is all of `REST` and the value is empty. |
| CliOptions.TokenOption | src/cli-options.cpp:9-73 | The tokens ``, `-` and `--` give `Option()`. `-kREST` gives the one-character key `k` and value `REST`, which may be empty. `--REST` is split as above. Any other token gives an empty key and the token as value. Every token's option is valid. |
| CliOptions.TokenKinds | src/cli-options.cpp:47-73 | Every token falls into exactly one kind: empty or `-` or `--`, a short option, a long option, or a plain value. |
| CliOptions.ParseTokens | src/cli-options.cpp:10-49 | The options for n tokens are n + 1 entries. The invalid sentinel comes first, then the options of the tokens from last to first. |
| CliOptions.ParseArgs | src/cli-options.cpp:76-83 | With `argc` 0 the list is empty. Otherwise it is the options of the tokens after the program name. |
| CliOptions.ParseArgsReversed | src/cli-options.cpp:76-83 | For `argv` of length n ≥ 1, the list has n entries: the sentinel, then token i's option at position n − i. |
| CliOptions.ProgramNameIgnored | src/cli-options.cpp:76-83 | Two argument vectors that differ only in the program name give the same list. |
| CliOptions.Get | src/cli-options.cpp:85-94 | Lookup gives the first valid option with the key, if there is one. Otherwise it gives an invalid option, and that happens iff no valid option has the key. |
| CliOptions.LastOccurrenceWins | src/cli-options.cpp:85-94 | On the parsed command line, the last token whose option has the key is the one found. When no token has the key, the invalid option comes back. |

## Left out

- `src/backend.cpp` and `src/main.cpp` are not part of this model. They cover lowering to LLVM, object emission, reading the source file and printing.
- `prettyPrint` (src/parser.hpp:82-134 and 184-200), `option_toString` and `options_toString` are left out. They are debug formatting.
- Ownership is not modelled: `new`/`delete`, the untagged union and the pointer for the annotation become a Dafny datatype.
- Text is ASCII. Characters above 0x7E belong to no class, as in the C locale. Non-ASCII or negative `char` values passed to `<cctype>` are not modelled.
- Indices, line and column numbers are unbounded naturals. Overflow of the `ptrdiff_t` counters is not modelled; only the 64-bit integer value is.
- Reader.Parse: requires a stream in which a copy never committed an index ahead of its own. Every stream the source builds, root or copy, is such a stream.
- RoundTrip.PrintedFormReadsBack: holds for printable forms only. In those, every identifier is one the identifier rule reads back and does not start with a digit. Also, no form printed after another in a compound starts with `::`, because such a form would be read as the annotation of the form before it. The `::` case arises only for the one-colon identifier carrying an annotation.
- RoundTrip.PrintedSequenceReadsBack: holds under the same restriction as `RoundTrip.PrintedFormReadsBack`.
- Reader.ParseInt, Reader.ParseText: the parser is built on the corrected decimal reader, so it rejects the wrapping numerals the source accepts. On `18446744073709551616` the source's `parse` succeeds with the root compound of the integer 0, while `Reader.ParseText` fails with "1:1: Integer larger than 64 bits.". The code as written is stated by the `Overflow` lemmas.
- Reader.ParseDecimalAsWritten: the parser does not use it. The parser uses the corrected `Reader.ParseDecimal` (see Findings).
- Reader.Annotate: its own contract does not tell its three outcomes apart. `ReaderProps.AnnotationAbsent`, `ReaderProps.AnnotationAtEnd` and `ReaderProps.AnnotationFollows` state them.
- CliOptions.ParseArgs: assumes `argv[argc]` is the null entry, as the C runtime guarantees. Tokens are the characters of C strings, so they have no embedded NUL. A call with an `argc` that disagrees with `argv` is not modelled.

## Findings

| source | as written | input that shows it | evidently intended | confidence | as-written member | corrected member |
|---|---|---|---|---|---|---|
| src/parser.cpp:59-65 | In wrapping 64-bit arithmetic, the overflow test compares `((10 * integer + digit) - digit) / 10` with `integer`. It fires iff `10 * integer` wraps. A wrap caused by adding a digit passes at any position, and the digits after it are read on from the wrapped value (`Overflow.AsWrittenAcceptsIff`). | the numerals `18446744073709551616` to `18446744073709551619` (2^64 to 2^64 + 3), read as 0 to 3; `184467440737095516160` (10 * 2^64), read as 0 | Any digit run whose value exceeds 2^64 − 1 fails with "Integer larger than 64 bits." (the comment at src/parser.cpp:89-90). `Reader.DecimalReadsRun` proves this of the corrected reader. | not executed | Overflow.LastDigitWrapAccepted, Overflow.MidRunWrapAccepted | Reader.ParseDecimal |
