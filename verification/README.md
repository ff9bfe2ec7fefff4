# journalentry in Dafny

A model of the `journalentry` package of a command-line journal. An entry is a
Markdown file whose name encodes a date; its YAML front matter holds three mood
ratings (1-5, 0 meaning "not yet collected") and a duration in seconds. The
model covers the three self-contained parts of the package:

- **Words** (`BodyWords`, `words.dfy`): `Entry.Words`, the matches of `\S+` over
  the body's bytes. Go's `\s` is exactly tab, newline, form feed, carriage
  return and space, so a vertical tab or any byte of a multi-byte character is
  part of a word.
- **Entry file names** (`EntryNames`, `entrynames.dfy`): the name `New` builds
  from a date with the layout `2006-01-02-Journal-Entry-for-Jan-2.md`;
  `Entry.Date`, which parses the last path element back with the same layout
  (`time.Parse` written out for this one layout: four-digit year, the month and
  the day each given twice, the later field winning, the month name matched
  regardless of case, the final day checked against the month's length); and
  `IsEntry`, the unanchored search for the pattern
  `\d{4}-\d{2}-\d{2}-Journal-Entry-for-\D{3}-\d{1,2}.md`, where the unescaped
  `.` stands for any character but a newline. Paths are sequences of Unicode
  code points, the unit the regular expression consumes; `filepath.Base` is
  modelled with '/' as the only separator.
- **Collecting the moods** (`Prompting`, `prompting.dfy`, and the class
  `Journal.Entry`, `journal.dfy`): `prompts()` selects a prompt for each mood
  field that is 0; `PromptForMetadata` visits them, writes the prompt, reads a
  line, trims it with `strings.TrimSpace` (the full `unicode.IsSpace` set),
  accepts it when it is a single digit 1-5 and stores the rating through the
  mood's setter, and otherwise writes `Unrecognized input` and a line break and
  asks again; a read error ends the call with that error, and a call with no
  read error returns nil (the error of the inner loop shadows the named result).

The reader is an `Input` value: the complete lines still to come, the text after
the last line break and the error that ends the input (`io.EOF` or another
error). Only inputs a reader can deliver are considered (`Prompting.ValidInput`:
neither a line nor the tail holds a line break). `ReadString('\n')` returns the
next line, or that text together with the error, so an unterminated last line is
reported as an error, as in Go. What the method writes is returned as a sequence
of strings.

`Journal.Entry.PromptForMetadata` is imperative, with the outer loop over the
prompts and the inner retry loop (`Fill`) as `while` loops over the entry's
fields. It is proved equal to `Prompting.Session`, a function of the old
ratings, the order in which the moods are visited and the input. The order is
that of ranging over a Go map, which the language leaves unspecified: the
method returns it as a ghost result and proves only that it visits each unset
mood once. The lines "3", "4", "2" therefore give High 3, Low 4 and Average 2
in only one of the six possible orders; `Scenarios.FillInThreeLines` states the
outcome for every order: the i-th mood visited gets the i-th line.

After the `^[1-5]$` match, `strconv.ParseUint(input, 10, 8)` cannot fail, so its
error branch is not modelled; `Prompting.ParseRating` is the match and the
conversion together.

## Model

| member | source | states |
|---|---|---|
| BodyWords.RunLength | journalentry.go:22 | a match of `\S+` extends to the first space byte: every byte before it is a non-space byte and the byte after it, if any, is a space byte |
| BodyWords.Words | journalentry.go:98-100 | every word is non-empty and holds no byte of `\s` |
| BodyWords.ConcatWords | journalentry.go:98-100 | the words glued together are the body with its space bytes deleted: nothing lost, nothing invented, nothing reordered |
| BodyWords.NoWordsIffBlank | journalentry.go:98-100 | there are no words exactly when the body is empty or all space bytes |
| BodyWords.WordsRebuildBody | journalentry.go:98-100 | the words, with runs of space bytes around them and non-empty runs between them, rebuild the body exactly, so each word is a contiguous piece of the body |
| BodyWords.WordsUnique | journalentry.go:98-100 | any layout of a body as words separated by runs of space bytes yields exactly those words, so the words are the maximal non-space runs in order |
| BodyWords.WordsCharacterised | journalentry.go:98-100 | for every `s` and `ws`: `Words(s) == ws` if and only if some gaps of space bytes, non-empty between words, lay `ws` out as exactly `s` |
| Journal.Entry.Words | journalentry.go:98-100 | the entry's words are non-empty non-space runs that together hold every non-space byte of the body, and there are none exactly when the body is blank |
| EntryNames.Skip | journalentry.go:94 | a literal of the layout is accepted exactly when the name continues with it, and parsing goes on after it |
| EntryNames.LongYear | journalentry.go:94 | the year field is four digits and gives a value in 0..9999 |
| EntryNames.GetNum | journalentry.go:94 | a numeric field gives a value in 0..99 |
| EntryNames.LookupMonth | journalentry.go:94 | a month name gives a month number in 1..12 and consumes three characters |
| EntryNames.ParseName | journalentry.go:93-95 | every date the layout accepts is a real calendar day with a four-digit year |
| EntryNames.ParseFromDay | journalentry.go:93-95 | every date the layout accepts from the zero-padded day on is a real calendar day |
| EntryNames.ParseDay | journalentry.go:93-95 | the final day is accepted only if it exists in the month named before it |
| EntryNames.TrimTrailingSeparators | journalentry.go:94 | the path without trailing separators does not end in one |
| EntryNames.LastElement | journalentry.go:94 | the last element contains no separator |
| EntryNames.Base | journalentry.go:94 | the base name is never empty and is "/" or holds no separator |
| EntryNames.ParseFormat | journalentry.go:20 | parsing a formatted name gives back the date it was formatted from |
| EntryNames.LookupOwnName | journalentry.go:20 | the month name the layout writes is looked up as that month |
| EntryNames.MonthNamesDistinct | journalentry.go:20 | no two month names are equal even ignoring case, so the lookup is unambiguous |
| EntryNames.FormatHasNoSeparator | journalentry.go:47 | a generated name is non-empty and holds no separator |
| EntryNames.BaseOfJoin | journalentry.go:47 | the base of `dir/name` is `name`, whatever `dir` is |
| EntryNames.DateOfEntryPath | journalentry.go:47 | `Date()` of the path `New` builds for a day, in any directory, is that day |
| EntryNames.IsEntryIffHasMatch | journalentry.go:130-132 | `IsEntry` holds exactly when some piece of the path is one whole match of the pattern |
| EntryNames.IsEntryExtend | journalentry.go:130-132 | text before or after a recognised path never makes it unrecognised |
| EntryNames.FormatIsMatch | journalentry.go:21 | every generated name is, as a whole, one match of the pattern |
| EntryNames.EntryPathIsEntry | journalentry.go:47 | every path `New` builds is recognised by `IsEntry` |
| EntryNames.ParsedNameIsMatch | journalentry.go:93-95 | every name `Date()` accepts is, as a whole, one match of the pattern |
| EntryNames.ParsedNameIsEntry | journalentry.go:93-95 | every name `Date()` accepts is recognised by `IsEntry` |
| Journal.Entry.constructor | journalentry.go:47 | the new entry's path is the directory, the separator and the formatted day; its fields are zero; its `Date()` is that day and its path is recognised |
| Journal.Entry.Date | journalentry.go:93-95 | a parsed date is a real calendar day, and the base name it came from is recognised by `IsEntry` |
| Prompting.Ratings.Set | journalentry.go:134-144 | the setter for a mood stores the rating in that mood and leaves the other two unchanged |
| Journal.Entry.SetLowMood | journalentry.go:134-136 | only the low mood changes, to the rating |
| Journal.Entry.SetHighMood | journalentry.go:138-140 | only the high mood changes, to the rating |
| Journal.Entry.SetAvgMood | journalentry.go:142-144 | only the average mood changes, to the rating |
| Journal.Entry.SetMood | journalentry.go:146-158 | the setter paired with a mood's prompt changes that mood only |
| Journal.Entry.Prompts | journalentry.go:146-158 | there is a prompt exactly for each mood whose field is 0, and each prompt is mapped to its own mood |
| Prompting.PromptInjective | journalentry.go:149-155 | the three prompts are distinct, so a prompt identifies its mood |
| Prompting.TrimLeft | journalentry.go:112 | the result does not start with white space |
| Prompting.TrimRight | journalentry.go:112 | the result does not end with white space |
| Prompting.TrimSpaceDrops | journalentry.go:112 | the trimmed line is a piece of the line with only white space cut from each end |
| Prompting.TrimSpaceOf | journalentry.go:112 | white space around a text with no white space at its ends is trimmed to exactly that text |
| Prompting.ParseRating | journalentry.go:113-119 | a rating is produced only for a single digit 1-5 and is that digit's value |
| Prompting.PaddedDigitAnswers | journalentry.go:112-120 | a line that is one digit 1-5 with any white space around it is accepted with that digit's value |
| Prompting.AnsweredLineIsPaddedDigit | journalentry.go:112-120 | conversely, every accepted line is one digit 1-5 with only white space around it |
| Prompting.Ask | journalentry.go:106-124 | asking about one mood uses between 1 and all of the lines and gives a rating in 1..5, or ends with the input's error |
| Prompting.AskAnsweredShape | journalentry.go:106-124 | an answered question rejected every line before the accepted one, took its rating from it, and wrote the prompt, a rejection and the prompt again for each rejected line, then the prompt |
| Prompting.AskAbortedShape | journalentry.go:106-111 | a question ended by the read error rejected every line and wrote the prompt and a rejection for each, then the prompt once more |
| Prompting.AskAnswered | journalentry.go:106-124 | conversely, with `k` rejected lines and an accepted one after them, asking reads `k + 1` lines and returns that rating |
| Prompting.AskAborted | journalentry.go:106-111 | conversely, when every line is rejected, asking ends with the read error |
| Prompting.Session | journalentry.go:103-127 | a session never reads more lines than there are |
| Prompting.SessionLeavesOthers | journalentry.go:105-124 | a mood that is not visited keeps its value |
| Prompting.SessionSucceeds | journalentry.go:103-127 | without a read error every visited mood ends with a rating in 1..5 |
| Prompting.SessionFails | journalentry.go:108-111 | after a read error the call returns that error having read every line; the moods visited before have ratings in 1..5 and the one being asked about and those after it keep their values |
| Prompting.FillsEveryUnsetMood | journalentry.go:103-127 | a successful call leaves no mood unset and changes no mood that was set |
| Prompting.FailureLeavesAMoodUnset | journalentry.go:108-111 | a failed call leaves at least one mood unset, unsets no mood that was set, and leaves every mood that was set with its old value |
| Prompting.NothingToAsk | journalentry.go:103-127 | with every mood set, a call reads nothing, writes nothing and returns nil |
| Prompting.SecondSessionIsQuiet | journalentry.go:103-127 | after a successful call a second call, in any order and on any input, reads and writes nothing |
| Prompting.SessionAppend | journalentry.go:105-125 | visiting `done` then `rest` is visiting `done` and, if it succeeded, visiting `rest` on the lines left over |
| Prompting.StepAnswered | journalentry.go:105-125 | after successful moods, an answered next mood extends the call by that answer |
| Prompting.StepAborted | journalentry.go:105-125 | after successful moods, a next mood hit by the read error ends the call with it, whatever moods were left |
| Journal.ReadString | journalentry.go:108 | the next complete line with its line break, or the unterminated rest with the input's error once the lines are used up; as bufio promises, the error is nil exactly when the returned text ends in the delimiter, and the delimiter occurs nowhere before its end |
| Journal.Entry.Fill | journalentry.go:106-124 | one round of the inner loop does what `Ask` says: on an answer the mood takes the rating and the lines it used are consumed; on a read error nothing changes and the error is returned; the writes are `Ask`'s |
| Journal.Entry.PromptForMetadata | journalentry.go:103-127 | the method visits each unset mood once, in some order, and its new moods, returned error, lines read and writes are those of `Session` for that order; `Seconds`, `Body` and `Path` do not change |
| Scenarios.DigitLine | journalentry.go:113-119 | a line holding only a digit 1-5 gives that digit's value |
| Scenarios.FillInThreeLines | journalentry.go:103-127 | with all moods 0 and the lines "3", "4", "2", in every visiting order the i-th mood gets the i-th digit, three lines are read, the three prompts are written and the result is nil |
| Scenarios.CorrectionAfterBadLine | journalentry.go:106-124 | a rejected line "x" followed by "5" writes the prompt, one rejection and the prompt again, and gives 5 after two lines |
| Scenarios.TwoWords | journalentry.go:98-100 | the body "  hello   world\n" has exactly the words "hello" and "world" |

## Left out

- `New`, `Load` and `Save`: they touch the file system, read the wall clock and call the external front-matter library, whose code is not part of this model. Only the path `New` builds is modelled (`Journal.Entry.constructor`, `EntryNames.EntryPath`).
- `Load`'s `modified` flag and the `ModTime` field: they compare and copy a file system time stamp.
- The dump `Save` prints when writing fails: it is output only.
- `Journal.Entry.constructor`: requires a year in 0..9999, which the four-digit year field can hold; Go's `Format` also writes negative and five-digit years, which the model does not.
- `EntryNames.Format`: the same year bound as the constructor.
- `EntryNames.Base`: only '/' is a separator, as on Unix; Windows volume names and '\' are not modelled.
- `Prompting.IsSpaceRune` and `EntryNames.IsMatch` work on Unicode code points; invalid UTF-8, which Go decodes to U+FFFD, is not modelled.
- `bufio` buffering and the reader and writer as objects: the reader is the `Input` value and the writes are returned as strings. A failing writer is not modelled; the code ignores the writer's errors.
- Time zones and the time of day of `time.Time`: a date is the day only, which is all the layout records.
