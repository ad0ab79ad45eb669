# Transcription CSV to SQL INSERT statements

This project models `process_transcription` from `process_transcription.py`, and proves properties of the model. The routine reads the rows of a transcription file: a header, then one segment per row with a start time, an end time and a text. It produces one SQL `INSERT` into table `transcriptions` for each usable row. The routine works as follows:

- it drops the first row, whatever it holds, as the header;
- it skips a row that has fewer than three fields;
- it skips a row whose start, end or text field is the empty string. This test looks at the raw text, before stripping;
- it doubles every single quote in the text, then strips leading and trailing whitespace (Python's `str.replace` followed by `str.strip()`);
- it fills in the statement template with the content identifier, the cleaned text, and the start and end fields. The content identifier and the text go inside single quotes; start and end are inserted unquoted. None of the three is escaped or checked;
- it appends each statement to a list, in row order, and returns the list.

The model takes rows that are already split into fields (`seq<seq<string>>`), so file reading and CSV parsing are not part of it. Files:

- `wrappers.dfy`: `Option` and `Result`.
- `sql_text.dfy`, module `SqlText`: quote doubling (`EscapeQuotes`) and `str.strip()` (`Strip`). Whitespace is defined as the exact set of code points Python's `str.isspace` accepts. The module also has `ReadLiteral`, which reads the body of a single-quoted string literal under the standard SQL rule: `''` is the only escape, and a backslash is an ordinary character, unlike in MySQL's default mode. The claims about what a statement reads back as hold for that rule. It is a reference reader, used to state what the doubling achieves; the source has no such reader.
- `transcription.dfy`, module `Transcription`: the statement template (`StatementHead`, `InsertStatement`), the per-row rule (`IsComplete`, `RowStatement`), the specification of the whole transform (`Statements`, `Transform`), and the imperative loop `ProcessTranscription`. The loop is proved equal to `Transform`.

The template constant copies the source's triple-quoted f-string exactly. The first line ends with a space after `end_time)`, then comes a newline, then 23 spaces of indentation before `VALUES`.

A source with no rows at all is different from a file that holds only a header. `next(reader)` raises StopIteration when there is no first row, and the caller reports that as a processing error. The model returns `Failure(MissingHeader)` in that case. A header-only file gives `Success([])`.

## Model

| member | source | states |
|---|---|---|
| `SqlText.IsSpace` | process_transcription.py:18 | the exact set of code points Python's `str.isspace` accepts, which is what `strip()` removes. It has no contract of its own; `LeadingSpaces`, `TrailingSpaces`, `StripLaw` and `StripUnique` state what stripping does with it |
| `SqlText.Strip` | process_transcription.py:18 | `str.strip()`: the result is never longer than the input, and neither of its ends is whitespace. `StripLaw` and `StripUnique` fix it completely |
| `SqlText.StripEmpty` | process_transcription.py:18 | stripping leaves the empty string exactly when the input is all whitespace |
| `SqlText.EscapeQuotes` | process_transcription.py:18 | the escaped text is longer than the input by the number of quotes in it, and holds exactly twice as many quotes |
| `SqlText.EscapedQuotesPaired` | process_transcription.py:18 | reading the escaped text from the left, every quote is followed by a second quote, so no lone quote is left |
| `SqlText.LiteralRoundTrip` | process_transcription.py:18-20 | take an escaped text, add a closing quote, then anything that does not start with a quote. Read as the body of a single-quoted SQL literal, this gives back exactly the original text, and reading stops at the closing quote |
| `SqlText.LeadingSpaces` | process_transcription.py:18 | the length of the leading run that `strip()` skips: every character before it is whitespace, and the next one is not |
| `SqlText.TrailingSpaces` | process_transcription.py:18 | the same for the trailing run: every character after the cut is whitespace, and the one before it is not |
| `SqlText.StripLaw` | process_transcription.py:18 | the stripped text is one contiguous piece of the input, so interior characters, interior whitespace included, are unchanged. What lies before and after it is all whitespace, and neither end of the result is whitespace |
| `SqlText.StripUnique` | process_transcription.py:18 | reference definition of `strip()`: for any whitespace-only prefix, trimmed middle and whitespace-only suffix, stripping their concatenation gives exactly the middle |
| `SqlText.StripKeepsQuotes` | process_transcription.py:18 | stripping removes no quote |
| `SqlText.EscapeStripCommute` | process_transcription.py:18 | doubling quotes and then stripping gives the same result as stripping and then doubling quotes |
| `Transcription.CleanText` | process_transcription.py:18 | the text as it goes into the statement: neither end is whitespace, and it is at most one character per quote longer than the raw text. `CleanTextLaws` gives its quote count and its commuted form |
| `Transcription.CleanTextLaws` | process_transcription.py:18 | if the raw text has n quotes, the cleaned text has exactly 2n, all in adjacent pairs. The cleaned text equals the stripped raw text with its quotes doubled |
| `Transcription.InsertStatement` | process_transcription.py:19-20 | the f-string template filled in, with the fixed part up to the content identifier kept in the constant `StatementHead`. It has no contract of its own; `StatementFields`, `ContentIdVerbatim` and `ContentIdQuoteEndsLiteral` state where each field sits and what it reads back as |
| `Transcription.StatementFields` | process_transcription.py:19-20 | a statement begins with the fixed template text and then the content identifier, unchanged. Its text literal reads back as the stripped raw text. The literal closes where the template puts the closing quote, and what follows is `, start, end);` with start and end unchanged and unquoted |
| `Transcription.ContentIdVerbatim` | process_transcription.py:19-20 | a content identifier without quotes is inserted unchanged, and its literal reads back as that identifier |
| `Transcription.ContentIdQuoteEndsLiteral` | process_transcription.py:19-20 | the content identifier is not escaped. When its first quote is followed by a character other than a quote, its literal ends at that quote, and the rest of the identifier is read as SQL that follows the literal. A doubled quote or a quote at the very end is not covered |
| `Transcription.Transform` | process_transcription.py:7-22 | the whole routine as a function: it fails exactly when there is no first row, and otherwise gives fewer statements than rows. `HeaderOnly`, `HeaderIgnored` and `StatementsFollowKeptRows` give its exact output |
| `Transcription.HeaderOnly` | process_transcription.py:10-22 | a source with no rows is an error. A source that holds only a header, whatever the header contains, gives an empty list of statements |
| `Transcription.HeaderIgnored` | process_transcription.py:10 | the first row never produces a statement. Replacing it with any other row gives the same result, namely the statements of the remaining rows |
| `Transcription.IsComplete` | process_transcription.py:12-16 | the usable-row test: at least three fields, and start, end and text all non-empty before any stripping. It has no contract of its own; `RowStatement` and `KeptRows` state it |
| `Transcription.RowStatement` | process_transcription.py:12-21 | one data row gives a statement exactly when it is usable, and no statement otherwise |
| `Transcription.RowStatementFirstThree` | process_transcription.py:12-13 | a row with fewer than three fields is skipped. Two rows that agree on their first three fields give the same outcome, so later fields are ignored |
| `Transcription.WhitespaceTextKept` | process_transcription.py:15-18 | the emptiness test runs before stripping, so a row whose text is only whitespace is kept, and its text literal is `''` |
| `Transcription.Statements` | process_transcription.py:11-21 | there are never more statements than data rows |
| `Transcription.StatementsAppend` | process_transcription.py:11-21 | rows are converted one by one in order: the statements for two consecutive runs of rows are the statements for the first run followed by those for the second |
| `Transcription.SkippedRowVanishes` | process_transcription.py:12-16 | a row that is short or has an empty start, end or text field leaves no trace: the output is what the other rows give without it |
| `Transcription.KeptRowAddsOne` | process_transcription.py:17-21 | a usable row adds exactly one statement, its own, in its place among the others. The output is one longer than without that row |
| `Transcription.KeptRows` | process_transcription.py:12-16 | the positions of the usable rows, in strictly increasing order. A row is listed exactly when it has at least three fields and non-empty start, end and text |
| `Transcription.StatementsFollowKeptRows` | process_transcription.py:11-21 | there is one statement for each usable row and no other. The k-th statement belongs to the k-th usable row, so the output keeps the input order |
| `Transcription.ProcessTranscription` | process_transcription.py:5-22 | the loop, with its header skip, `continue` on skipped rows, reassigned text and growing list, returns exactly `Transform` of its rows |

## Left out

- `main` (process_transcription.py:24-44) is command-line glue and is not modelled. That covers the argument-count check, resolving the input path next to the script, the file-existence check, printing `BEGIN;`, the statements and `COMMIT;`, and the exit codes.
- Opening the file, UTF-8 decoding, and the exceptions they raise (process_transcription.py:8, 42-44) are input/output failures, not part of the transform. Only the error from a missing first row is modelled (`MissingHeader`).
- `csv.reader` tokenisation (process_transcription.py:9) is a library whose quoting, delimiter and embedded-newline rules are not part of this model. The model starts from rows already split into fields.
- Dafny's `char` is a Unicode scalar value, so lone surrogate code points cannot appear in a modelled string. Strict UTF-8 decoding never puts them in the CSV fields. The content identifier comes from `sys.argv` (process_transcription.py:29), which CPython decodes with surrogateescape on POSIX, so it can hold lone surrogates that the model cannot represent. The routine copies the content identifier into the statement unchanged, so no other behaviour depends on this.
- The model adds no check that start and end are numeric and no escaping of the content identifier, because the source has neither. `ContentIdQuoteEndsLiteral` states what that means when the content identifier's first quote is followed by a character other than a quote. The other cases, a doubled quote or a quote at the very end, are not stated.
