# git_plus commit parsing, modelled in Dafny

This project models the commit-message parsing engine of the Ruby gem `git_plus`. The engine
turns what git knows about a commit into a `Commit` record with eleven members: author, date,
sha, subject, body, message, trailers and three derived views. The derived views are the body
lines, the body paragraphs and the index of the first trailer.

The modelled parts are:

- **The `String` refinements** (`strings.dfy`). These are `pluralize`, used when reporting
  counts, and the autosquash prefix tests `amend?`, `fixup?`, `squash?` and `prefix?`.
- **The `Commit` record** (`commit.dfy`) with its `fixup?` and `squash?` queries.
- **The saved-entry parser** (`saved_entry.dfy`). It takes the attributes of one commit
  already stored in the repository and derives the trailer list, the trailer index, the body
  lines and the body paragraphs in its fixed step order.
- **The unsaved-entry parser** (`unsaved_entry.dfy`). It takes the raw text of a message that
  is still being written. It cuts off the "scissors" tail of a verbose commit, splits the
  subject from the body and then derives the same views.
- **The saved history query** (`saved_history.dfy`). It builds the tagged `--pretty=format:`
  argument, asks `git log`, splits the output into records and extracts every attribute of
  each record.
- **Shared pieces.** `ruby_text.dfy` gives the exact Ruby semantics the parsers rely on:
  `split` with a literal separator, `join`, `chomp`, literal `sub`, `delete_prefix`,
  `Array#index`, the drop of trailing empty lines and the rejection of comment lines.
  `segmentation.dfy` holds the two derivations both parsers write the same way: the trailer
  index and the body lines.
- **Worked cases** (`parser_cases.dfy`). Six of the repository's parser examples are proved
  against the model, each as a statement about every derived member: the saved parser with
  trailers and with comments after the trailers, and the unsaved parser with a subject only,
  a one-line body, trailers, and comments after the trailers. The other examples are not
  restated one by one. `ParserCases.UnsavedMessageParts` is not an example but the general
  shape the unsaved ones share.

The two parsers are classes. Each owns its `Commit` record and updates it one step at a time,
as the Ruby objects do with `merge!` and their `step_*` methods. Each step method is proved
to produce the record that a pure `Parse` function describes. The properties are then proved
about those functions.

The model follows the code line by line. Where the code behaves differently from what a summary of the gem would suggest, the code wins:

- **Paragraph splitting.** Paragraphs are split on the literal separator `"\n\n"`, not on
  "one or more blank lines".
- **Comment paragraphs.** A paragraph is dropped only when it starts with `#`. Comment lines
  inside a paragraph stay in it.
- **Trailer index.** The index counts the raw lines of the body: comment lines count, and in
  the unsaved parser so does the leading empty line of the body. That is why the unsaved
  trailer cases give index 3, not 2.
- **Unsaved trailer removal.** The unsaved parser removes only the first literal occurrence
  of the trailer block. Whatever follows the block stays, and then one line ending is
  chomped, even when there are no trailers. Only the saved parser cuts the block and
  everything after it. As a result an unsaved body can keep an empty paragraph, as in
  `["One.", ""]`.
- **`Commit#amend?`.** The gem's tests call `Commit#amend?`, but `lib/git_plus/commit.rb`
  does not define it. The model has only `fixup?` and `squash?`.

## Model

| member | source | states |
|---|---|---|
| RubyText.Find | lib/git_plus/parsers/commits/unsaved/entry.rb:82 | the result is the leftmost occurrence of the pattern, and nil exactly when there is none |
| RubyText.DeleteFirst | lib/git_plus/parsers/commits/unsaved/entry.rb:82 | literal `sub(pat, "")` removes exactly the leftmost occurrence: the input is the result with `pat` put back at that position |
| RubyText.IndexOf | lib/git_plus/parsers/commits/saved/entry.rb:32 | `Array#index` gives the first position holding the element, and nil exactly when the element is absent |
| RubyText.Split | lib/git_plus/parsers/commits/saved/entry.rb:29 | `split` gives no field holding the separator, never ends in an empty field, and gives `[]` for `""` |
| RubyText.DropTrailingEmpty | lib/git_plus/parsers/commits/saved/entry.rb:44 | `reverse.drop_while(&:empty?).reverse` keeps a prefix, drops only empty strings, and the last one kept is not empty |
| RubyText.Chomp | lib/git_plus/parsers/commits/saved/entry.rb:39 | `chomp` removes one trailing "\r\n", "\n" or "\r" and otherwise nothing |
| RubyText.DeletePrefix | lib/git_plus/parsers/commits/unsaved/entry.rb:77 | `delete_prefix` removes the prefix exactly when the string starts with it |
| RubyText.RejectComments | lib/git_plus/parsers/commits/saved/entry.rb:48 | the kept items are exactly the items that do not start with "#" |
| RubyText.JoinSplitLines | lib/git_plus/parsers/commits/saved/entry.rb:29 | joining the lines of a text again gives the text without its trailing newlines |
| RubyText.SplitRoundTrip | lib/git_plus/parsers/commits/saved/entry.rb:29 | splitting and joining again loses only separators at the end of the string |
| RubyText.JoinRawSplit | lib/git_plus/parsers/commits/saved/entry.rb:29 | the raw fields, joined with the separator, give the string back |
| RubyText.RawSplitJoin | lib/git_plus/parsers/commits/unsaved/entry.rb:50-55 | splitting a join of separator-free fields on a one-character separator gives those fields back |
| RubyText.SplitJoinLines | lib/git_plus/parsers/commits/unsaved/entry.rb:50-55 | newline-free lines, joined with or without a final newline, split back into themselves less trailing empty lines |
| RubyText.RejectCommentsAppend | lib/git_plus/parsers/commits/saved/entry.rb:48 | rejecting comments from a concatenation rejects them from each part |
| Strings.IntToString | lib/git_plus/refinements/strings.rb:9-11 | the interpolated count reads back as the same number: digits for a non-negative count, a minus sign and digits otherwise, with no leading zero except in "0" itself |
| Strings.Pluralize | lib/git_plus/refinements/strings.rb:8-12 | a count of exactly 1 gives "1", a space and the word; any other count, zero and negatives included, also gets the suffix |
| Strings.PluralizeReadsBack | lib/git_plus/refinements/strings.rb:8-12 | a pluralized count splits at its first space into the count in decimal and the word, suffixed exactly when the count is not 1 |
| Strings.PluralizeExamples | spec/lib/git_plus/refinements/strings_spec.rb:8-39 | "0 issues", "2 issues", "1 issue", "0 branches", "2 branches", "1 branch" |
| Strings.PrefixesExclusive | lib/git_plus/refinements/strings.rb:14-18 | no subject is an amend and a fixup, an amend and a squash, or a fixup and a squash at once |
| Strings.MarkersReadHead | lib/git_plus/refinements/strings.rb:14-20 | `amend?`, `fixup?`, `squash?` and `prefix?` are anchored at the start: text after the first eight characters never changes their answer |
| Strings.MarkerNeedsStartAndSpace | lib/git_plus/refinements/strings.rb:14-18 | a prefix is recognised after the marker exactly when a whitespace follows it, and never after a leading space |
| Strings.AmendExamples | spec/lib/git_plus/refinements/strings_spec.rb:42-58 | `amend?` is true only with the marker at the start and a space after it |
| Strings.FixupExamples | spec/lib/git_plus/refinements/strings_spec.rb:60-76 | `fixup?` is true only with the marker at the start and a space after it |
| Strings.SquashExamples | spec/lib/git_plus/refinements/strings_spec.rb:78-94 | `squash?` is true only with the marker at the start and a space after it |
| Strings.PrefixExamples | spec/lib/git_plus/refinements/strings_spec.rb:96-112 | `prefix?` is true for each of the three markers and false for a plain subject |
| Commits.New | lib/git_plus/commit.rb:5-18 | a new record has all eleven members unset |
| Commits.Fixup | lib/git_plus/commit.rb:21 | `fixup?` raises (None) exactly when the subject is nil, and is true exactly when the subject has the fixup marker |
| Commits.Squash | lib/git_plus/commit.rb:23 | `squash?` raises (None) exactly when the subject is nil, and is true exactly when the subject has the squash marker |
| Commits.PrefixTestsReadOnlySubject | lib/git_plus/commit.rb:21-23 | records with the same subject answer `fixup?` and `squash?` alike, whatever their other members |
| Commits.FixupExcludesSquash | lib/git_plus/commit.rb:21-23 | no record is both a fixup and a squash commit |
| Segmentation.TrailersIndex | lib/git_plus/parsers/commits/saved/entry.rb:31-33 | nil without trailers; otherwise nil exactly when the first trailer is not a raw body line, else the first such line's position |
| Segmentation.BodyLines | lib/git_plus/parsers/commits/saved/entry.rb:43-49 | body lines are the comment-free lines less a run of empty lines at the end; none is a comment and the last is not empty |
| Segmentation.EmptyTextHasNoLines | lib/git_plus/parsers/commits/saved/entry.rb:43-49 | a body made only of newlines has no lines |
| Segmentation.NoLinesOnlyNewlines | lib/git_plus/parsers/commits/unsaved/entry.rb:44 | a text splits into no lines exactly when it holds only newlines |
| Segmentation.FirstLine | lib/git_plus/parsers/commits/unsaved/entry.rb:44 | the first line is a newline-free prefix, ended by a newline or the end of the text |
| SavedEntry.SplitTrailers | lib/git_plus/parsers/commits/saved/entry.rb:29 | "" gives no trailers; trailers are newline-free and join back to the text less its trailing newlines |
| SavedEntry.BodyWithoutTrailers | lib/git_plus/parsers/commits/saved/entry.rb:51-58 | the body itself without trailers or without the block in it; otherwise the prefix before the block's first occurrence |
| SavedEntry.BodyParagraphs | lib/git_plus/parsers/commits/saved/entry.rb:37-41 | the paragraphs are the chomped blank-line-separated pieces of the cut body, in order and with repeats, less those starting with "#"; none holds a separator |
| SavedEntry.ParagraphsRoundTrip | lib/git_plus/parsers/commits/saved/entry.rb:37-41 | paragraphs joined by blank lines come back as the same paragraphs, in order, less the comment ones |
| SavedEntry.Parse | lib/git_plus/parsers/commits/saved/entry.rb:21 | the given attributes other than the trailers pass through unchanged, and the trailers are the split trailer text |
| SavedEntry.BodyWithoutTrailersIdempotent | lib/git_plus/parsers/commits/saved/entry.rb:51-58 | cutting the trailer block a second time changes nothing |
| SavedEntry.EmptyBodyAndTrailers | lib/git_plus/parsers/commits/saved/entry.rb:29-41 | an empty body and empty trailer text give no trailers, no index, no lines and no paragraphs |
| SavedEntry.Entry.constructor | lib/git_plus/parsers/commits/saved/entry.rb:17-19 | the parser holds the given record |
| SavedEntry.Entry.Call | lib/git_plus/parsers/commits/saved/entry.rb:21 | merging and building leave, and answer, exactly the record `Parse` describes |
| SavedEntry.Entry.Merge | lib/git_plus/parsers/commits/saved/entry.rb:21 | `merge!` overwrites the seven string members and keeps the trailer text; nothing else changes |
| SavedEntry.Entry.Build | lib/git_plus/parsers/commits/saved/entry.rb:27 | steps a to d in order set trailers, index, lines and paragraphs from the merged body and trailer text |
| SavedEntry.Entry.StepATrailers | lib/git_plus/parsers/commits/saved/entry.rb:29 | only the trailers change, to the split trailer text |
| SavedEntry.Entry.StepBTrailersIndex | lib/git_plus/parsers/commits/saved/entry.rb:31-33 | only the trailer index changes |
| SavedEntry.Entry.StepCBodyLines | lib/git_plus/parsers/commits/saved/entry.rb:35 | only the body lines change, to the lines of the trailer-free body |
| SavedEntry.Entry.StepDBodyParagraphs | lib/git_plus/parsers/commits/saved/entry.rb:37-41 | only the body paragraphs change |
| SavedHistory.PatternKeysWellFormed | lib/git_plus/parsers/commits/saved/history.rb:15-24 | the eight pattern keys are distinct and hold no tag punctuation |
| SavedHistory.FormatPattern | lib/git_plus/parsers/commits/saved/history.rb:43-46 | the format argument is `--pretty=format:` and, between double quotes, each of the eight keys tagged around its placeholder and ended by `%n`, in declaration order |
| SavedHistory.LayoutFront | lib/git_plus/parsers/commits/saved/history.rb:44 | the left fold puts the first key's tagged content first, followed by the fold of the rest |
| SavedHistory.Process | lib/git_plus/parsers/commits/saved/history.rb:48-52 | a failed log gives no records; a successful one gives its output split on the record separator, so no record holds the separator and the last is not empty |
| SavedHistory.ProcessRoundTrip | lib/git_plus/parsers/commits/saved/history.rb:48-52 | the records of a successful log, joined with the separator, give back its output less separators at the end |
| SavedHistory.Extract | lib/git_plus/parsers/commits/saved/history.rb:56 | "" when the key's opening tag is missing or no closing tag follows it; otherwise the text from just after the first opening tag up to the nearest closing tag after it, which holds no closing tag |
| SavedHistory.Parse | lib/git_plus/parsers/commits/saved/history.rb:54-58 | the mapping has exactly the pattern's keys, each bound to its extracted content |
| SavedHistory.ParseRecord | lib/git_plus/parsers/commits/saved/history.rb:35-36 | the commit one record gives: each string member is the text between that member's tags, and the trailers are the lines between the trailer tags |
| SavedHistory.Call | lib/git_plus/parsers/commits/saved/history.rb:32-37 | the log is asked once with the format appended, and each record becomes one commit, in order |
| SavedHistory.ExtractRecord | lib/git_plus/parsers/commits/saved/history.rb:54-58 | for well-formed keys, extracting a key from a printed record gives back that key's value, provided its opening tag appears neither before the record nor in an earlier value and its own value holds no closing tag |
| SavedHistory.ParseRecordRoundTrip | lib/git_plus/parsers/commits/saved/history.rb:32-37 | a record printed under the gem's format, with any text around it, parses back into its eight attributes and into the commit the saved parser builds from them, provided no key's opening tag appears before the record or in the value of an earlier key and no value holds its own closing tag |
| UnsavedEntry.DashRunDashes | lib/git_plus/parsers/commits/unsaved/entry.rb:15 | each `-+` of the scissors pattern takes a run made only of dashes |
| UnsavedEntry.ScissorsLineMatches | lib/git_plus/parsers/commits/unsaved/entry.rb:15 | every line of the scissors shape ('#', a space, dashes, " >8 ", dashes, a newline, then more text) is recognised |
| UnsavedEntry.FirstScissors | lib/git_plus/parsers/commits/unsaved/entry.rb:15 | the leftmost position where the scissors pattern matches, or none when it matches nowhere |
| UnsavedEntry.StripScissors | lib/git_plus/parsers/commits/unsaved/entry.rb:48-49 | the message up to its leftmost scissors line; unchanged exactly when there is none |
| UnsavedEntry.NoDashNoScissors | lib/git_plus/parsers/commits/unsaved/entry.rb:15 | a message without a dash has no scissors line |
| UnsavedEntry.StripScissorsIdempotent | lib/git_plus/parsers/commits/unsaved/entry.rb:48-49 | cutting the scissors tail twice cuts nothing more |
| UnsavedEntry.Body | lib/git_plus/parsers/commits/unsaved/entry.rb:47-56 | the body is empty or ends in a newline |
| UnsavedEntry.BodyWithoutTrailers | lib/git_plus/parsers/commits/unsaved/entry.rb:82 | the chomped body with only the first occurrence of the trailer block taken out |
| UnsavedEntry.BodyParagraphs | lib/git_plus/parsers/commits/unsaved/entry.rb:75-80 | the paragraphs are the blank-line-separated pieces with one leading newline and then one line ending taken off, in order and with repeats, less those starting with "#"; none holds a separator; empty ones are kept |
| UnsavedEntry.ParagraphsRoundTrip | lib/git_plus/parsers/commits/unsaved/entry.rb:75-80 | paragraphs joined by blank lines, with a newline before and after as a body has, come back as the same paragraphs, in order, less the comment ones |
| UnsavedEntry.Parse | lib/git_plus/parsers/commits/unsaved/entry.rb:27-32 | message, sha, author and trailers pass through, and the date is "0 seconds ago" |
| UnsavedEntry.SubjectIsFirstLine | lib/git_plus/parsers/commits/unsaved/entry.rb:44 | `UnsavedEntry.Subject` is nil exactly for a message of newlines only, else the first line |
| UnsavedEntry.BodyIgnoresScissorsTail | lib/git_plus/parsers/commits/unsaved/entry.rb:47-56 | cutting the scissors tail beforehand does not change the body |
| UnsavedEntry.SubjectAndBody | lib/git_plus/parsers/commits/unsaved/entry.rb:44-56 | without scissors, subject, newline and body are the message's lines joined with a final newline |
| UnsavedEntry.BodyRebuildsMessage | lib/git_plus/parsers/commits/unsaved/entry.rb:44-56 | without scissors, subject, newline and body give back the message up to trailing newlines |
| UnsavedEntry.ReparseIsStable | lib/git_plus/parsers/commits/unsaved/entry.rb:44-56 | parsing subject, newline and body again gives the same subject and body |
| UnsavedEntry.Entry.constructor | lib/git_plus/parsers/commits/unsaved/entry.rb:21-25 | the parser holds the given sha, record and collaborators |
| UnsavedEntry.Entry.Call | lib/git_plus/parsers/commits/unsaved/entry.rb:27-32 | the record left and answered is exactly the one `Parse` describes, with the trailers of the message |
| UnsavedEntry.Entry.Build | lib/git_plus/parsers/commits/unsaved/entry.rb:38 | steps a to h, in order, set every derived member from the message |
| UnsavedEntry.Entry.StepAAuthorName | lib/git_plus/parsers/commits/unsaved/entry.rb:40 | only the author name changes, to the configured one |
| UnsavedEntry.Entry.StepBAuthorEmail | lib/git_plus/parsers/commits/unsaved/entry.rb:42 | only the author email changes, to the configured one |
| UnsavedEntry.Entry.StepCSubject | lib/git_plus/parsers/commits/unsaved/entry.rb:44 | only the subject changes |
| UnsavedEntry.Entry.StepDBody | lib/git_plus/parsers/commits/unsaved/entry.rb:47-56 | only the body changes |
| UnsavedEntry.Entry.StepETrailers | lib/git_plus/parsers/commits/unsaved/entry.rb:58-60 | only the trailers change, to those of the whole message |
| UnsavedEntry.Entry.StepFTrailersIndex | lib/git_plus/parsers/commits/unsaved/entry.rb:62-64 | only the trailer index changes |
| UnsavedEntry.Entry.StepGBodyLines | lib/git_plus/parsers/commits/unsaved/entry.rb:67-72 | only the body lines change, to the lines of the trailer-free body |
| UnsavedEntry.Entry.StepHBodyParagraphs | lib/git_plus/parsers/commits/unsaved/entry.rb:75-80 | only the body paragraphs change |
| ParserCases.SavedWithTrailers | spec/lib/git_plus/parsers/commits/saved/entry_spec.rb:164-180 | two trailers after one paragraph: trailers as lines, index 2, lines and paragraphs ["One."] |
| ParserCases.SavedWithSuffixedComments | spec/lib/git_plus/parsers/commits/saved/entry_spec.rb:182-198 | comments after the trailer are cut with it: index 2, lines and paragraphs ["One."] |
| ParserCases.UnsavedMessageParts | lib/git_plus/parsers/commits/unsaved/entry.rb:44-56 | a dash-free subject, blank line and text give that subject, the body "\n" + text + "\n" and its lines |
| ParserCases.UnsavedSubjectOnly | spec/lib/git_plus/parsers/commits/unsaved/entry_spec.rb:47-52 | a subject with trailing newlines gives an empty body, no lines, no paragraphs, no index |
| ParserCases.UnsavedOneLineBody | spec/lib/git_plus/parsers/commits/unsaved/entry_spec.rb:54-67 | body "\nTest.\n", lines ["", "Test."], paragraphs ["Test."] |
| ParserCases.UnsavedWithTrailers | spec/lib/git_plus/parsers/commits/unsaved/entry_spec.rb:168-183 | index 3 (the leading empty line counts), lines ["", "One."], paragraphs ["One."] |
| ParserCases.UnsavedWithSuffixedComments | spec/lib/git_plus/parsers/commits/unsaved/entry_spec.rb:185-200 | only the block goes: index 3, lines ["", "One."], paragraphs ["One.", ""] |

## Left out

- **External calls become parameters.** These are `git log` (a function from the arguments
  to standard output and success), `git config user.name` / `user.email` (two strings),
  `git interpret-trailers` (a function from message to trailer list) and
  `SecureRandom.hex(20)` (the sha is given).
- **Saved history input and the module layout.**
  - `stdout.scrub("?")` is not modelled: the model works on characters, so there are no
    invalid bytes to replace.
  - `lib/git_plus/repository.rb`, `lib/git_plus/parsers/commits/unsaved/history.rb` and the
    command wrappers are not part of this model.
- **Step order.** The `build` methods find their steps by reflection (`private_methods`
  sorted by name). The model calls the same steps in that sorted order explicitly.
- **Class-level `call` shortcuts.** `Entry.call` on the class only builds a fresh parser and
  calls it. The model starts from the constructor.
- **Saved trailer cut.** The saved parser interpolates the joined trailers into a regular
  expression, `/#{...}.*/m`. The model searches for them as literal text, so trailers
  holding regexp metacharacters are not modelled.
- **Record round trip.** `SavedHistory.ExtractRecord` and `SavedHistory.ParseRecordRoundTrip`
  require that a key's opening tag appears neither before the record nor in the value of an
  earlier key, and that no value holds its own closing tag. A value such as `Name <mail>`
  is covered. A value holding another key's tag can make the lazy match pick the wrong
  text, and the round trip is not claimed for it.
- **Custom pattern.** `History.new(pattern:)` accepts any pattern. `SavedHistory.Call` uses
  the gem's own `PATTERN`. `Parse` and `Format` take any pattern, but the round trip is proved
  for well-formed keys only.
- **Pluralize.** `Strings.Pluralize` takes an integer count. Ruby interpolates any object
  with `to_s`, and that is not modelled.
- **Other `Struct` methods.** `Commit` is a datatype of `Option` members. Keyword
  initialisation, `to_h` and the rest of the `Struct` protocol are not modelled.
- **`UnsavedEntry.DashRun`'s own contract** states only where the run ends. That every
  character inside the run is a dash is proved separately, in `UnsavedEntry.DashRunDashes`.
