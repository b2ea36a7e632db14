# orpg-to-md, modelled in Dafny

`orpg-to-md` converts one exported ORPG chat log (a JSON document tagged with version
`orpg.1.0`) into a Markdown transcript. It orders the messages by their `updatedAt`
timestamps, gives each a heading that names its speaker (`#### You:` for the user, the
persona's short name, long name or `AI` otherwise), appends the message body verbatim,
and writes the result to the output path if one is given and non-empty. Otherwise it
writes to the input path with its last dot and everything after it replaced by `.md`,
provided at least one character follows that dot.

This project models the converter in `main.js`:

- `values.dfy` (`JsValues`): optional JSON properties, JavaScript truthiness of strings and `||`.
- `document.dfy` (`Orpg`): the document, its characters and messages. The messages are the
  values of the JSON `messages` object in `Object.values` order.
- `render.dfy` (`Render`): `getAIName` and `convertMessageToMarkdown`.
- `ordering.dfy` (`Ordering`): the timestamp order, with the laws of a total order proved.
- `sort.dfy` (`StableSort`): the stable sort of line 21. `Sort` is its result as a function.
  `SortByUpdatedAt` sorts an array in place and is proved to produce `Sort`. `Sort` is
  proved sorted, a permutation, stable, and the only stable sort of its input.
- `transcript.dfy` (`Transcript`): `processMessages`, a method with the loop that appends
  fragments, proved equal to the `Markdown` function, with lemmas on how the transcript is laid out.
- `output_path.dfy` (`OutputPath`): the output path of line 42, with the regular expression's
  meaning written out.
- `version.dfy` (`VersionCheck`): the version warning of lines 34-38.
- `convert.dfy` (`Converter`): `convertToMarkdown`, from the parser's outcome to the run's outcome.

Four consequences of the code that are easy to miss:

- A path without a dot, or with nothing after its last dot, is kept unchanged. No `.md` is
  appended, so the Markdown overwrites the input file. `ReplaceExtensionKeepsPathIff`
  states exactly when the derived path is the input path.
- The pattern's `[^.]` also matches `/`. So when a directory name holds the last dot, the
  derived path leaves that directory: `a.b/c` becomes `a.md`, a file beside the
  directory, even though `c` had no extension (`DerivedPathExamples`).
- The transcript holds one `####` marker per message only when no message body and no
  speaker name contains `####` itself. A short or long name holding `####` adds a marker
  inside its own heading. The model proves the structural fact instead: one fragment per
  message, laid end to end (`Fragments`, `TranscriptLayout`).
- The transcript does not depend on the order `Object.values` yields the messages in, as
  long as no two messages share a timestamp (`TranscriptIgnoresInputOrder`). Messages with
  equal timestamps keep that order (`SortIsStable`).

## Model

| member | source | states |
|---|---|---|
| `JsValues.Truthy` | main.js:13-15 | a string property is falsy exactly when it is absent or the empty string |
| `JsValues.OrElse` | main.js:15 | JavaScript's or-expression of an optional string `x` and a fallback gives the fallback when `x` is absent or empty and `x` itself otherwise, so it is never empty when the fallback is not |
| `Render.AIName` | main.js:11-17 | never empty; an absent character or absent `modelInfo` gives `AI`; otherwise a non-empty `short_name`, else a non-empty `name`, else `AI` |
| `Render.SpeakerName` | main.js:6-7 | the heading name is never empty |
| `Render.MessageToMarkdown` | main.js:5-9 | a fragment is ten characters longer than the speaker name and the body together: the heading's `#### ` and `:`, and two line breaks after each of the heading and the body |
| `Render.FragmentLayout` | main.js:5-9 | a fragment is `#### <speaker>:`, a blank line, the body exactly as stored, a blank line, with the speaker `You` for the user and the AI name otherwise |
| `Render.UserHeadingIgnoresCharacters` | main.js:6-7 | a `USER` message is headed `#### You:` and renders the same whatever the characters map holds |
| `Render.ShortNameWins` | main.js:15 | a non-empty short name is the heading name even when a long name is set |
| `Ordering.LexLe` | main.js:21 | the stand-in for `localeCompare`: a prefix sorts no later than the longer string |
| `Ordering.LexLeFirstDifference` | main.js:21 | where two timestamps first differ, the characters there decide the order |
| `Ordering.LexLeTie` | main.js:21 | two timestamps compare both ways exactly when they are equal |
| `Ordering.LexLeReflexive` | main.js:21 | every timestamp compares equal to itself |
| `Ordering.LexLeAntisymmetric` | main.js:21 | timestamps that compare both ways are equal |
| `Ordering.LexLeTransitive` | main.js:21 | the timestamp order is transitive |
| `Ordering.LexLeTotal` | main.js:21 | any two timestamps are comparable |
| `Ordering.LexLeCommonPrefix` | main.js:21 | a shared prefix does not affect the comparison |
| `StableSort.NotAfter` | main.js:21 | the comparator: any two messages compare one way or the other, and they compare both ways exactly when their timestamps are equal |
| `StableSort.Insert` | main.js:21 | inserting adds exactly one message to the multiset of messages |
| `StableSort.Sort` | main.js:20-21 | the sorted messages are a permutation of the input messages |
| `StableSort.InsertSorted` | main.js:21 | inserting into a sorted sequence keeps it sorted |
| `StableSort.SortIsSorted` | main.js:21 | the sorted messages are non-decreasing by `updatedAt` |
| `StableSort.SortIsStable` | main.js:21 | for every timestamp, the messages carrying it keep their input order |
| `StableSort.SortIsStableSort` | main.js:20-21 | `Sort` is sorted and stable |
| `StableSort.SortedAgreementIsEquality` | main.js:21 | two sorted sequences that agree on every timestamp's messages are equal |
| `StableSort.StableSortIsUnique` | main.js:20-21 | any sorted, stable rearrangement of the input is `Sort` of it, so any stable sort gives this result |
| `StableSort.InsertLast` | main.js:21 | the inner pass moves the next message into the sorted prefix in place: the array becomes `Insert` of the prefix followed by the untouched rest |
| `StableSort.SortByUpdatedAt` | main.js:20-21 | sorting the array in place leaves it holding `Sort` of its old contents |
| `Transcript.Fragments` | main.js:24-26 | exactly one fragment per message, the i-th rendering the i-th message |
| `Transcript.RenderAll` | main.js:23-27 | the loop's accumulated string is the fragments joined in order |
| `Transcript.ProcessMessages` | main.js:19-28 | the returned Markdown is the fragments of the sorted messages joined in order |
| `Transcript.ConcatAppend` | main.js:23-26 | joining two runs of fragments is joining each and appending |
| `Transcript.TranscriptLayout` | main.js:20-27 | the i-th sorted message's fragment sits in the transcript right after those of the messages before it |
| `Transcript.TranscriptEmptyIff` | main.js:23-27 | the transcript is empty exactly when there are no messages |
| `Transcript.TranscriptIgnoresInputOrder` | main.js:20-21 | when the input's timestamps are distinct, any reordering of the input gives the same transcript |
| `Transcript.TwoMessageTranscript` | main.js:20-26 | of two messages the later-stamped renders second, and on a tie the first listed renders first |
| `Transcript.StrawberryConversation` | tests/main.test.js:7-53 | the test's reply, listed first but stamped later, follows the question under `#### You:`; the reply is headed with the short name |
| `OutputPath.LastDot` | main.js:42 | finds the last dot of a path, or reports that it has none |
| `OutputPath.ReplaceExtension` | main.js:42 | a match of `/\.[^.]+$/` is replaced by `.md` and the rest kept; with no match the path is unchanged |
| `OutputPath.FinalOutputFile` | main.js:42 | a non-empty output path is used verbatim; otherwise the derived one |
| `OutputPath.ReplaceExtensionIdempotent` | main.js:42 | deriving again from a derived path changes nothing |
| `OutputPath.ReplaceExtensionKeepsPathIff` | main.js:42-43 | the derived path equals the input path exactly when nothing matches or the path already ends in `.md` |
| `OutputPath.ReplaceLastExtension` | main.js:42 | a dot-free, non-empty text after the last dot is replaced by `.md` |
| `OutputPath.KeepPathWithoutExtension` | main.js:42 | a path without a dot, or ending in its last dot, is kept unchanged |
| `OutputPath.DerivedPathExamples` | main.js:42 | the test input `temp-example.json` gives `temp-example.md`; `a.b/c` gives `a.md`, the dot in the directory name being the last one |
| `OutputPath.KeptPathExamples` | main.js:42 | `notes` and `notes.` are kept |
| `OutputPath.OutputArgumentExamples` | main.js:42 | an output argument is used verbatim unless it is absent or empty |
| `VersionCheck.ReportedVersion` | main.js:36 | the quoted version is the version when it is a non-empty string, `none` otherwise |
| `VersionCheck.VersionWarning` | main.js:34-38 | a warning exactly when the version is not `orpg.1.0`; it opens with the fixed lead text, quotes the expected version `orpg.1.0`, and ends quoting the reported version |
| `VersionCheck.VersionExamples` | main.js:34-38 | `orpg.1.0` passes; `orpg.2.0`, an absent and an empty version warn with the expected texts |
| `Converter.ConvertToMarkdown` | main.js:30-52 | a JSON syntax error exits with status 1 and the fixed message; other errors are rethrown; a parsed document is always converted, with the version warning beside it, the transcript, the output path and the notice |
| `Converter.ChatConversion` | main.js:30-44 | a greeting and a later reply from `Bot`, converted from `chat.json`, give `chat.md` holding both fragments in order, with no warning |

## Left out

- Reading and writing files, `console.log`, `console.warn`, `console.error` and `process.exit` are I/O. The warning, the Markdown, the output path and the notice are returned as values instead (main.js:32, 35-37, 43-44, 47-48).
- The command line (main.js:54-61) is I/O plumbing. That includes the "Please provide an input file" check. `ConvertToMarkdown` takes the two arguments directly.
- `JSON.parse` is a library parser. Its outcome is the input of `ConvertToMarkdown`: a parsed document, a syntax error, or any other error.
- Failures of `fs.writeFileSync` are not modelled, since writing is left out. They would be rethrown like any other error.
- `localeCompare` collation is replaced by plain character-by-character order. The two agree on fixed-width ISO-8601 timestamps. Locale rules, and UTF-16 code units as opposed to Dafny characters, are not modelled.
- `Array.prototype.sort` is the engine's own algorithm. The model sorts with an insertion sort. `StableSortIsUnique` shows that every stable sort gives the same result.
- JavaScript's dynamic typing is not modelled. Every field is an optional string or a string, and `characters` and `messages` are always present. So the model leaves out prototype keys such as `characters["constructor"]`, non-string names or versions, and the way integer-like keys reorder `Object.values`. It also leaves out the inputs on which the source throws a `TypeError`, which main.js:50 rethrows. Among them:
  - a document without `messages`: `Object.values(undefined)` throws at main.js:20, after the version check;
  - a document without `characters`: the lookup at main.js:12 throws, but only once a message that is not the user's is rendered, since `getAIName` is called only for those (main.js:6-7);
  - a message without `updatedAt`: main.js:21 throws only when that message is the left operand of a comparison. As the right operand it is compared as the string `undefined`, and a lone message is never compared at all;
  - a top-level `null` document: reading `data.version` throws at main.js:34, before any warning;
  - a `null` entry in `messages`: with two or more messages it throws at main.js:21 whichever operand it is, since `b.updatedAt` reads a property of `null` just as `a.updatedAt` does; a lone `null` entry throws at main.js:6 when it is rendered.
- `ConvertToMarkdown` returns its outcome as one value. The order of the side effects is not modelled: the warning is printed before the Markdown is built and written.
