# git-ai-commit: the commit pipeline and the response normaliser, in Dafny

This project models the two pieces of git-ai-commit that have real logic.

- **The commit pipeline** (`src/services/git/git.service.ts`).
  - `commitChanges` parses the staged file names from `git diff --cached --name-only` and calls `generateCommitMessage(files)`.
  - `generateCommitMessage` returns `null` when there are no files. Otherwise it reads the current branch and then the staged diff, builds a prompt from a fixed template, and calls the Gemini model once.
  - The message is the text of the first part of the first candidate of the model's answer. A missing link on that path, an empty text, or an exception from the model call all give `null`.
  - `commitChanges` commits with that raw text when there is one. It never pushes.
- **The response normaliser** `parseCustomJSONString` (`src/helper/str.ts`).
  - It removes the first "```html", the first "```json", every "```" and every line feed from the model's text, in that order.
  - It hands the result to `JSON.parse` and turns any exception into `null`.
  - The service never calls it: the commit message is the model's raw text.

Files:

- `wrappers.dfy`: `Option` (JavaScript's `null`/`undefined`) and `Result` (a promise that resolves or rejects). `Result` can be used with `:-`.
- `text.dfy`: the JavaScript string operations the code uses, with their laws.
  - `ReplaceFirst` is `replace` with a string pattern. It replaces the leftmost occurrence only.
  - `ReplaceAll` is `replace` with a global regular expression on a literal. It replaces every occurrence, left to right, without overlaps.
  - `Split` and `Join` are `split` on one character and its inverse.
  - `Trim` is `trim`, with the ECMAScript whitespace set.
- `str_helper.dfy`: module `StrHelper`, i.e. `parseCustomJSONString` and what the decoder can and cannot see.
- `git_service.dfy`: module `GitService`.
  - Pure parts: staged-file parsing, the prompt template and the answer extraction.
  - `GenerationRun` and `CommitRun` are pure functions. They give the outcome, the collaborator calls and the new commits of one run.
  - The `Repository` class holds what git reports, the commit log and the trace of calls. Its methods `GenerateCommitMessage` and `CommitChanges` are proved equal to those functions.

Collaborators:

- Git is the `Repository` object. Each read holds what git would return. `None` means the call rejects. An accepted commit makes the index equal to the new HEAD, so afterwards both `git diff --cached` reads give `""`.
- `acceptsCommit` says whether `git.commit` succeeds.
- The model is a function `Model` from prompt to `ModelReply`: either a `GenerateContentResult` or a thrown exception.
- `JSON.parse` is a function parameter `decode: string -> Option<J>`. `None` means it threw. The only property assumed of it is `RejectsEmpty(decode)`: `JSON.parse("")` throws.

## Model

| member | source | states |
|---|---|---|
| Text.ReplaceFirst | src/helper/str.ts:6-7 | `replace` with a string pattern. Its meaning is pinned down by ReplaceFirstLeftmost, ReplaceFirstAbsent and ReplaceFirstKeepsCount. |
| Text.ReplaceAll | src/helper/str.ts:8-9 | `replace` with a global regular expression on a literal. Its meaning is pinned down by ReplaceAllLeftmost, ReplaceAllAbsent, ReplaceAllChar and ReplaceAllKeepsCount. |
| Text.Join | src/services/git/git.service.ts:62 | The inverse of `split('\n')`, used only to state the round trips JoinSplit and SplitJoin. |
| Text.Trim | src/services/git/git.service.ts:62 | `trim()`: ECMAScript whitespace removed at both ends. Its emptiness test is pinned down by TrimEmptyIffBlank. |
| Text.ReplaceFirstSkipsClear | src/helper/str.ts:6-7 | A prefix in which `pat` never starts is passed over unchanged by `replace`, whatever follows it. |
| Text.ReplaceFirstLeftmost | src/helper/str.ts:6-7 | `replace` with a string pattern replaces the leftmost occurrence. If `pat` starts at `|a|` in `a + pat + b` and nowhere earlier, the result is `a + rep + b`. |
| Text.ReplaceFirstAbsent | src/helper/str.ts:6-7 | If the pattern does not occur, `replace` returns the string unchanged. |
| Text.ReplaceFirstKeepsCount | src/helper/str.ts:6-7 | Removing the first occurrence keeps the count of every character the pattern does not contain. |
| Text.ReplaceAllLeftmost | src/helper/str.ts:8-9 | A global `replace` replaces the leftmost occurrence and goes on scanning after it. Earlier text is kept. |
| Text.ReplaceAllAbsent | src/helper/str.ts:8-9 | If the pattern does not occur, a global `replace` returns the string unchanged. |
| Text.ReplaceAllKeepsCount | src/helper/str.ts:8-9 | A global removal keeps the count of every character the pattern does not contain. |
| Text.ReplaceAllChar | src/helper/str.ts:9 | `replace(/\n/g, '')` removes exactly the line feeds and keeps everything else in order. |
| Text.Split | src/services/git/git.service.ts:62 | `split('\n')` always returns at least one piece: `""` gives `[""]`. |
| Text.SplitPieces | src/services/git/git.service.ts:62 | No piece of `split('\n')` contains a line feed. Every character of a piece comes from the input. |
| Text.JoinSplit | src/services/git/git.service.ts:62 | Joining the pieces of `split('\n')` with line feeds gives back the input: nothing is lost or reordered. |
| Text.SplitJoin | src/services/git/git.service.ts:62 | Splitting a line-feed join of line-feed-free lines gives back exactly those lines. |
| Text.TrimEmptyIffBlank | src/services/git/git.service.ts:62 | `s.trim()` is `''` exactly when every character of `s` is whitespace. |
| StrHelper.StripFences | src/helper/str.ts:5-8 | The first three steps: the first "```html", then the first "```json", then every "```". NoFenceAfterStripping, SecondTagSurvives and FencedAnswerNormalises pin down the result. |
| StrHelper.Normalise | src/helper/str.ts:5-9 | All four steps, i.e. the string handed to `JSON.parse`. DecoderSeesNoLineFeed, PlainInputUnchanged, OnlyLineFeedsRemoved, KeepsOtherCharacters and FencedAnswerNormalises pin it down. |
| StrHelper.ParseCustomJSONString | src/helper/str.ts:1-21 | The function is total, so no exception escapes. With a decoder that rejects `""`, a `null`, `undefined` or `""` input gives `null`. |
| StrHelper.NullishInputReachesDecoderEmpty | src/helper/str.ts:3-9 | `str \|\| ''` maps `null`, `undefined` and `""` to `""`, and the decoder is handed `""`. That is why ParseCustomJSONString gives `null` for them. |
| StrHelper.DecoderSeesNoLineFeed | src/helper/str.ts:9 | The string passed to `JSON.parse` contains no line feed. |
| StrHelper.RemovingFencesLeavesNone | src/helper/str.ts:8 | After `replace(/```/g, '')` no "```" remains, and the leading run of k backticks shrinks to k mod 3 backticks. |
| StrHelper.NoFenceAfterStripping | src/helper/str.ts:6-8 | After the three fence removals, and before line feeds are removed, no "```" remains. |
| StrHelper.FenceCanReappearAfterLineFeedRemoval | src/helper/str.ts:8-9 | Removing line feeds can join backticks again: "``\n`" reaches the decoder as "```". |
| StrHelper.PlainInputUnchanged | src/helper/str.ts:5-9 | Text with no "```" and no line feed reaches the decoder unchanged. Single and double backticks are kept. |
| StrHelper.OnlyLineFeedsRemoved | src/helper/str.ts:5-9 | For text without "```", normalising removes exactly the line feeds. Carriage returns and inline backticks are kept. |
| StrHelper.EscapedLineFeedSurvives | src/helper/str.ts:9 | The two-character escape backslash-n inside JSON strings is kept. |
| StrHelper.KeepsOtherCharacters | src/helper/str.ts:6-9 | A carriage return, a backslash, or any other character outside the fence markers and LF keeps its number of occurrences. |
| StrHelper.FencedAnswerNormalises | src/helper/str.ts:6-9 | Take tag "", "html" or "json" and an X with no "```", spread over any number of lines and possibly holding single or double backticks. Then "```" + tag + LF + X + LF + "```" normalises to X with its line feeds removed, which is also what X alone normalises to. It normalises to exactly X when X is on one line. X = "```json" under the tag json shows the bound: the wrapped form gives "json" and X alone gives "". |
| StrHelper.FencesAroundAnswer | src/helper/str.ts:6-8 | For the same tags and X, the three fence removals unwrap "```" + tag + LF + X + LF + "```" to exactly LF + X + LF. |
| StrHelper.FencedAnswerDecodesAsBare | src/helper/str.ts:5-16 | Such a fenced answer, on one line or many and with or without inline backticks, decodes to the same value as X alone. A one-line X is handed to the decoder unchanged. |
| StrHelper.SecondTagSurvives | src/helper/str.ts:6-8 | Only the first "```html" or "```json" is removed whole. A second one loses only its backticks, so its `html`/`json` stays in the text. |
| GitService.KeepNonBlank | src/services/git/git.service.ts:62 | The filter `file.trim() !== ''`. The result is no longer than the input, and every entry is one of the pieces with a non-empty trim. KeepNonBlankSingle, KeepNonBlankAppend and KeepNonBlankMembers pin it down. |
| GitService.StagedFilesOf | src/services/git/git.service.ts:61-62 | The parsed name-only output. StagedFilesOfLines, StagedFileEntries and BlankOutputListsNoFile pin it down. |
| GitService.KeepNonBlankSingle | src/services/git/git.service.ts:62 | The filter keeps a piece exactly when it is not whitespace-only. The piece is kept untrimmed. |
| GitService.KeepNonBlankAppend | src/services/git/git.service.ts:62 | The filter distributes over concatenation, so the kept pieces stay in their original order. |
| GitService.KeepNonBlankMembers | src/services/git/git.service.ts:62 | A string is in the result exactly when it is one of the pieces and has a non-whitespace character. |
| GitService.StagedFilesOfLines | src/services/git/git.service.ts:61-62 | For name-only output made of lines joined by line feeds, `getStagedFiles` returns those lines, in order and untrimmed, with exactly the blank ones dropped. |
| GitService.StagedFileEntries | src/services/git/git.service.ts:62 | Every staged file name has a non-whitespace character, contains no line feed, and is one of the output's lines. |
| GitService.BlankOutputListsNoFile | src/services/git/git.service.ts:62 | Empty output, or output of only whitespace and line feeds, lists no file. |
| GitService.BranchPrompt | src/services/git/git.service.ts:85-89 | The branch part of the prompt, built from the same constants as the template. PromptNamesBranch and PromptListsTypesAndScopes pin it down. |
| GitService.Prompt | src/services/git/git.service.ts:92-102 | The full prompt: the branch part, the diff introduction, the diff and the closing instructions. PromptNamesBranch, PromptListsTypesAndScopes and PromptHoldsDiff pin it down. |
| GitService.PromptNamesBranch | src/services/git/git.service.ts:89 | The prompt opens with `Using branch "` + branch + `"`. |
| GitService.PromptListsTypesAndScopes | src/services/git/git.service.ts:85-89 | The prompt holds the type list feat\|fix\|docs\|style\|refactor\|perf\|test\|build\|ci\|chore\|revert and the scope list auth\|db\|ui\|api\|deps\|core\|test. |
| GitService.PromptHoldsDiff | src/services/git/git.service.ts:92-102 | The prompt holds the diff verbatim, right after the branch part and the diff introduction, followed by the fixed closing instructions. |
| GitService.FirstPartText | src/services/git/git.service.ts:107-108 | The optional chain `response?.candidates?.[0]?.content?.parts?.[0]?.text`. MissingLinkYieldsNull and FirstTextIsTheMessage pin it down. |
| GitService.CommitMessageOf | src/services/git/git.service.ts:107-110 | The result is never `""`. When it is a text, it is the first candidate's first part text, unchanged. It is `null` exactly when that text is missing or empty. |
| GitService.MessageFromReply | src/services/git/git.service.ts:104-114 | An exception from the model call gives `null`. An answer gives its extracted message. |
| GitService.MissingLinkYieldsNull | src/services/git/git.service.ts:107-110 | A missing response, candidates array, first candidate, content, parts array, first part or text gives `null`. |
| GitService.FirstTextIsTheMessage | src/services/git/git.service.ts:107-110 | An answer whose first candidate's first part holds a text gives that text, whatever other parts and candidates follow. The empty text gives `null`. |
| GitService.GenerationRun | src/services/git/git.service.ts:70-115 | The outcome and the collaborator calls of one `generateCommitMessage(files)`. NoFilesNoCalls, GenerationCallOrder, GeneratedMessage and GenerationNeitherCommitsNorPushes pin it down. Repository.GenerateCommitMessage is proved equal to it. |
| GitService.CommitRun | src/services/git/git.service.ts:120-128 | The outcome, the calls and the new commits of one `commitChanges()`. CommitAtMostOnce and NothingStagedNothingCommitted pin it down. Repository.CommitChanges is proved equal to it. |
| GitService.NoFilesNoCalls | src/services/git/git.service.ts:74-77 | With no files, it returns `null` without reading the branch or the diff and without calling the model. |
| GitService.GenerationCallOrder | src/services/git/git.service.ts:79-105 | With files, the branch is read first, then the diff, then the model is called exactly once with the prompt. A failing branch or diff read propagates before the model is called. |
| GitService.GeneratedMessage | src/services/git/git.service.ts:104-114 | A thrown model call gives `null`. A generated message is non-empty and is the raw first part text of the answer to the prompt. |
| GitService.GenerationNeitherCommitsNorPushes | src/services/git/git.service.ts:70-115 | `generateCommitMessage` makes no commit and no push call. |
| GitService.CommitAtMostOnce | src/services/git/git.service.ts:120-128 | At most one commit is made, and nothing is pushed. The commit log gains `[m]` exactly when the name-only read succeeded, generation returned `m`, and git accepted the commit. |
| GitService.NothingStagedNothingCommitted | src/services/git/git.service.ts:121-124 | When the name-only diff lists no file, only that read happens: no branch or diff read, no model call, no commit. |
| GitService.RunAfterCommitCommitsNothing | src/services/git/git.service.ts:121-126 | A run that starts from empty staged reads, as after an accepted commit, makes only the name-only read and commits nothing. |
| GitService.Repository.constructor | src/services/git/git.service.ts:18 | The repository starts with the given git answers and commit log, and an empty call trace. |
| GitService.Repository.CurrentBranch | src/services/git/git.service.ts:33-36 | Records one branch read. Returns the current branch, or propagates git's failure. |
| GitService.Repository.GetStagedDiff | src/services/git/git.service.ts:51-54 | Records one diff read. Returns the staged diff, or propagates git's failure. |
| GitService.Repository.GetStagedFiles | src/services/git/git.service.ts:60-63 | Records one name-only read. Returns the parsed staged file names, or propagates git's failure. |
| GitService.Repository.GenerateContent | src/services/git/git.service.ts:105 | Records one model call with the prompt and returns the model's reply to it. |
| GitService.Repository.Commit | src/services/git/git.service.ts:126 | Records one commit call. When git accepts it, the message is appended to the log and both staged reads become `""`. Otherwise it fails, and the log and the staged state are unchanged. |
| GitService.Repository.GenerateCommitMessage | src/services/git/git.service.ts:70-115 | Returns what `GenerationRun` says and appends exactly its calls to the trace. Nothing else changes. |
| GitService.Repository.CommitChanges | src/services/git/git.service.ts:120-149 | Returns what `CommitRun` says for the state before the call. It appends exactly its calls to the trace and exactly its commits (none or one) to the log. After a commit nothing is staged; otherwise the staged state is unchanged. |

## Left out

- `getModifiedFiles` (git.service.ts:24-27): `git.status()` passthrough that the pipeline never calls.
- `getFileContent` (git.service.ts:43-45): file reading that the pipeline never calls.
- Console logging throughout: it has no effect on results.
- Building the Gemini client and reading the API key (git.service.ts:11-15, src/config/index.ts). The model is a function parameter instead.
- `JSON.parse` itself: it is the `decode` parameter, and the JSON grammar is not modelled.
  - In JavaScript, `JSON.parse("null")` returns `null`, which looks the same as the failure `null`. The model keeps a decoded JSON null distinct from `None`.
- Retry, parsing the model output into a title and a body, origin-URL parsing and pull-request update do not exist in the code. Pull-request creation exists only as `OctokitService.createPullRequest` (octokit.service.ts:26-49), and its one call is commented out (git.service.ts:130-148). `parseCustomJSONString` is never called by the service.
- The commit message is the model's raw text, not a parsed title.
- Push: `git.push()` is commented out (git.service.ts:127). The model has a `Pushed` call kind only to state that it never happens.
- The `--pr` argument that `src/index.ts` passes to `commitChanges`: it is ignored, because `commitChanges` takes no parameter.
- src/services/octokit/octokit.service.ts, src/index.ts, app.js, utils/git.js and src/git-example.ts are not part of this model. They are HTTP glue, CLI wiring, an older stub and a demo.
- Asynchrony: every call is awaited in sequence, so each run is modelled as sequential steps.
- Model nondeterminism: the model is one fixed function of the prompt. That is enough, because each run calls it at most once.
- Strings are sequences of Unicode scalar values, not UTF-16 code units. Every pattern here is ASCII, so only lone surrogates could behave differently.
- Text.IsWhitespace: a fixed list of the ECMAScript WhiteSpace and LineTerminator code points. It tracks no later Unicode additions to the space-separator category.
- A getter that throws while the optional chain runs is not modelled. The chain can only find links present or missing.
- `generateCommitMessage` checks only the length of `files`; their names never reach the prompt. The model does the same.
