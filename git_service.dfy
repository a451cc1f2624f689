/**
  * The commit pipeline of src/services/git/git.service.ts.
  *
  * `commitChanges` lists the staged files, asks `generateCommitMessage`
  * for a message, and commits with it when there is one. The message is
  * made by reading the current branch and the staged diff, building a
  * prompt from a fixed template, calling the language model once, and
  * taking the text of the first part of the first candidate of its answer.
  *
  * Git and the model are collaborators: a `Repository` object holds what
  * git would report (branch, name-only diff, diff), whether it accepts a
  * commit, the commit log, and the trace of every collaborator call; the
  * model is a function from prompt to reply (`Model`).
  */
module GitService {
  import opened Wrappers
  import opened Text

  // ---------------------------------------------------------------------
  // Staged files: `split('\n').filter((file) => file.trim() !== '')`
  // ---------------------------------------------------------------------

  /** The pieces whose trimmed form is not empty, untrimmed and in order. */
  function KeepNonBlank(pieces: seq<string>): (kept: seq<string>)
    ensures |kept| <= |pieces|
    ensures forall i :: 0 <= i < |kept| ==> kept[i] in pieces && Trim(kept[i]) != ""
    decreases |pieces|
  {
    if pieces == [] then []
    else (if Trim(pieces[0]) != "" then [pieces[0]] else []) + KeepNonBlank(pieces[1..])
  }

  /** The staged file names in the output of `git diff --cached --name-only`. */
  function StagedFilesOf(output: string): seq<string> {
    KeepNonBlank(Split(output, '\n'))
  }

  /** A single piece is kept exactly when it is not whitespace only. */
  lemma KeepNonBlankSingle(p: string)
    ensures KeepNonBlank([p]) == if IsBlank(p) then [] else [p]
  {
    TrimEmptyIffBlank(p);
    assert [p][1..] == [];
  }

  /** The filter distributes over concatenation, so order is kept. */
  lemma {:induction false} KeepNonBlankAppend(a: seq<string>, b: seq<string>)
    ensures KeepNonBlank(a + b) == KeepNonBlank(a) + KeepNonBlank(b)
    decreases |a|
  {
    if a == [] {
      assert a + b == b;
    } else {
      var k := Trim(a[0]) != "";
      var head := if k then [a[0]] else [];
      assert (a + b)[0] == a[0];
      assert (a + b)[1..] == a[1..] + b;
      assert KeepNonBlank(a + b) == head + KeepNonBlank(a[1..] + b);
      assert KeepNonBlank(a) == head + KeepNonBlank(a[1..]);
      KeepNonBlankAppend(a[1..], b);
      AppendAssoc(head, KeepNonBlank(a[1..]), KeepNonBlank(b));
    }
  }

  /** Regrouping over abstract lists, so that the filter's contract is not
      instantiated on the concatenations. */
  lemma AppendAssoc(x: seq<string>, y: seq<string>, z: seq<string>)
    ensures x + (y + z) == (x + y) + z
  {
  }

  /** What is kept is exactly the pieces with a non-whitespace character. */
  lemma {:induction false} KeepNonBlankMembers(pieces: seq<string>)
    ensures forall f :: f in KeepNonBlank(pieces) <==> f in pieces && !IsBlank(f)
    decreases |pieces|
  {
    if pieces != [] {
      KeepNonBlankMembers(pieces[1..]);
      TrimEmptyIffBlank(pieces[0]);
      assert pieces == [pieces[0]] + pieces[1..];
    }
  }

  /** For name-only output built from lines, the result is those lines with
      the blank ones dropped. */
  lemma StagedFilesOfLines(lines: seq<string>)
    requires |lines| >= 1
    requires forall k :: 0 <= k < |lines| ==> '\n' !in lines[k]
    ensures StagedFilesOf(Join(lines, '\n')) == KeepNonBlank(lines)
  {
    SplitJoin(lines, '\n');
  }

  /** Every staged file name has a non-whitespace character, contains no
      line feed, and is one of the lines of the output. */
  lemma StagedFileEntries(output: string)
    ensures forall f :: f in StagedFilesOf(output) ==>
      !IsBlank(f) && '\n' !in f && f in Split(output, '\n')
  {
    SplitPieces(output, '\n');
    KeepNonBlankMembers(Split(output, '\n'));
  }

  /** Pieces that are all whitespace only are all dropped. */
  lemma {:induction false} KeepNonBlankAllBlank(pieces: seq<string>)
    requires forall k :: 0 <= k < |pieces| ==> IsBlank(pieces[k])
    ensures KeepNonBlank(pieces) == []
    decreases |pieces|
  {
    if pieces != [] {
      TrimEmptyIffBlank(pieces[0]);
      KeepNonBlankAllBlank(pieces[1..]);
    }
  }

  /** Output that is empty, or only whitespace and line feeds, lists no file. */
  lemma BlankOutputListsNoFile(output: string)
    requires IsBlank(output)
    ensures StagedFilesOf(output) == []
  {
    SplitBlank(output, '\n');
    KeepNonBlankAllBlank(Split(output, '\n'));
  }

  // ---------------------------------------------------------------------
  // The prompt
  // ---------------------------------------------------------------------

  const TypeList: string := "feat|fix|docs|style|refactor|perf|test|build|ci|chore|revert"
  const ScopeList: string := "auth|db|ui|api|deps|core|test"

  /** `followTypes`. */
  const FollowTypes: string :=
    "\n          - types: " + TypeList + "\n          - scopes: " + ScopeList

  const BranchOpen: string := "Using branch \""
  const AsContext: string := " as context, generate a commit message following these types: "
  const Example: string := ". Eg: [lower case type]: [Commit message].\n\n"

  /** `branchPrompt`. */
  function BranchPrompt(branch: string): string {
    BranchOpen + branch + "\"" + AsContext + FollowTypes + Example
  }

  const DiffIntro: string := " Based on the following diff contents: "

  /** The part of `prompt` after the diff. */
  const PromptTail: string :=
    ", \n  create an object with the structure: { title: string, body: string }."
    + "\n  Generate a concise and relevant title summarizing the overall change. "
    + "\n  Generate a body following this format:"
    + "\n\n    ## \U{2728} Summary by Git AI"
    + "\n\n    ### \U{1F525} Changes"
    + "\n    - [List the key points or main changes found in the diff]"
    + "\n\n  The output should strictly be a JSON object like: { \"title\": \"\", \"body\": \"\" }."

  /** `prompt`: the text sent to the model. */
  function Prompt(branch: string, diff: string): string {
    BranchPrompt(branch) + DiffIntro + diff + PromptTail
  }

  /** The prompt opens with `Using branch "<branch>"`. */
  lemma PromptNamesBranch(branch: string, diff: string)
    ensures BranchOpen + branch + "\"" <= Prompt(branch, diff)
  {
    PrefixOfLonger(BranchOpen + branch + "\"", AsContext, FollowTypes, Example, DiffIntro, diff, PromptTail);
  }

  /** The prompt lists the allowed commit types and scopes. */
  lemma PromptListsTypesAndScopes(branch: string, diff: string)
    ensures Occurs(Prompt(branch, diff), TypeList)
    ensures Occurs(Prompt(branch, diff), ScopeList)
  {
    var t1 := "\n          - types: ";
    var t2 := "\n          - scopes: ";
    var pre := BranchOpen + branch + "\"" + AsContext;
    var post := Example + DiffIntro + diff + PromptTail;
    assert FollowTypes == t1 + TypeList + t2 + ScopeList;
    Regroup(pre, t1, TypeList, t2, ScopeList, Example, DiffIntro, diff, PromptTail);
    assert Prompt(branch, diff) == pre + (t1 + TypeList + t2 + ScopeList) + Example + DiffIntro + diff + PromptTail;
    OccursInside(pre + t1, TypeList, t2 + ScopeList + post);
    OccursInside(pre + t1 + TypeList + t2, ScopeList, post);
  }

  /** Regrouping over abstract pieces, so that the prompt's literal
      constants are never unfolded character by character. */
  lemma PrefixOfLonger(a: string, b: string, c: string, d: string, e: string, f: string, g: string)
    ensures a <= a + b + c + d + e + f + g
  {
    assert a + b + c + d + e + f + g == a + (b + c + d + e + f + g);
  }

  /** The two regroupings of the prompt that expose the type list and
      the scope list. */
  lemma Regroup(pre: string, t1: string, ty: string, t2: string, sc: string,
                 ex: string, di: string, d: string, pt: string)
    ensures pre + (t1 + ty + t2 + sc) + ex + di + d + pt == (pre + t1) + ty + (t2 + sc + (ex + di + d + pt))
    ensures pre + (t1 + ty + t2 + sc) + ex + di + d + pt == (pre + t1 + ty + t2) + sc + (ex + di + d + pt)
  {
  }

  /** The prompt holds the diff verbatim, right after the branch part and
      the diff introduction, and ends with the closing instructions. */
  lemma PromptHoldsDiff(branch: string, diff: string)
    ensures OccursAt(Prompt(branch, diff), diff, |BranchPrompt(branch) + DiffIntro|)
    ensures Prompt(branch, diff)[|BranchPrompt(branch) + DiffIntro| + |diff|..] == PromptTail
  {
    var p := Prompt(branch, diff);
    var bi := BranchPrompt(branch) + DiffIntro;
    assert p == bi + (diff + PromptTail);
    assert p[|bi|..] == diff + PromptTail;
    assert p[|bi| + |diff|..] == PromptTail;
  }

  /** `t` is a substring of `a + t + b`. */
  lemma OccursInside(a: string, t: string, b: string)
    ensures Occurs(a + t + b, t)
  {
    assert (a + t + b)[|a|..] == t + b;
    assert OccursAt(a + t + b, t, |a|);
  }

  // ---------------------------------------------------------------------
  // The model's answer: `result.response?.candidates?.[0]?.content?.parts?.[0]?.text`
  // ---------------------------------------------------------------------

  /** The fields of a `GenerateContentResult` on the path to the text; each
      `Option` is a link that may be missing (`null` or `undefined`). */
  datatype Part = Part(text: Option<string>)
  datatype Content = Content(parts: Option<seq<Part>>)
  datatype Candidate = Candidate(content: Option<Content>)
  datatype Response = Response(candidates: Option<seq<Candidate>>)
  datatype GenerateContentResult = GenerateContentResult(response: Option<Response>)

  /** What `model.generateContent(prompt)` does: resolve, or throw. */
  datatype ModelReply = Replied(result: GenerateContentResult) | Threw

  type Model = string -> ModelReply

  /** The optional chain: `None` as soon as a link is missing or an array
      index is out of range. */
  function FirstPartText(result: GenerateContentResult): Option<string> {
    match result.response
    case None => None
    case Some(response) =>
      match response.candidates
      case None => None
      case Some(candidates) =>
        if |candidates| == 0 then None
        else
          match candidates[0].content
          case None => None
          case Some(content) =>
            match content.parts
            case None => None
            case Some(parts) => if |parts| == 0 then None else parts[0].text
  }

  /** `commitMessage || null`: the empty text is falsy and becomes `null`. */
  function CommitMessageOf(result: GenerateContentResult): (m: Option<string>)
    ensures m != Some("")
    ensures m.Some? ==> FirstPartText(result) == m
    ensures m.None? ==> FirstPartText(result) == None || FirstPartText(result) == Some("")
  {
    match FirstPartText(result)
    case None => None
    case Some(text) => if text == "" then None else Some(text)
  }

  /** The `try`/`catch` around the model call: an exception is `null`. */
  function MessageFromReply(reply: ModelReply): (m: Option<string>)
    ensures reply.Threw? ==> m == None
    ensures reply.Replied? ==> m == CommitMessageOf(reply.result)
  {
    match reply
    case Threw => None
    case Replied(result) => CommitMessageOf(result)
  }

  /** A link missing anywhere on the path gives `null`. */
  lemma MissingLinkYieldsNull(result: GenerateContentResult)
    requires
      || result.response.None?
      || result.response.value.candidates.None?
      || result.response.value.candidates.value == []
      || result.response.value.candidates.value[0].content.None?
      || result.response.value.candidates.value[0].content.value.parts.None?
      || result.response.value.candidates.value[0].content.value.parts.value == []
      || result.response.value.candidates.value[0].content.value.parts.value[0].text.None?
    ensures CommitMessageOf(result) == None
  {
  }

  /** An answer whose first candidate's first part holds `text` gives that
      text unchanged, whatever follows it; the empty text gives `null`. */
  lemma FirstTextIsTheMessage(text: string, moreParts: seq<Part>, moreCandidates: seq<Candidate>)
    ensures CommitMessageOf(GenerateContentResult(Some(Response(Some(
      [Candidate(Some(Content(Some([Part(Some(text))] + moreParts))))] + moreCandidates)))))
      == if text == "" then None else Some(text)
  {
  }

  // ---------------------------------------------------------------------
  // Collaborator calls and what the two operations do with them
  // ---------------------------------------------------------------------

  /** The calls made on git and on the model, in the order they are made. */
  datatype Call =
    | BranchRead                 // git.branch()
    | StagedNamesRead            // git.diff(['--cached', '--name-only'])
    | StagedDiffRead             // git.diff(['--cached'])
    | ModelCalled(prompt: string) // model.generateContent(prompt)
    | Committed(message: string) // git.commit(message)
    | Pushed                     // git.push()

  /** A rejected git call; it propagates to the caller. */
  datatype GitError = GitError(during: Call)

  /** The number of model calls in a trace. */
  function ModelCalls(calls: seq<Call>): nat
    decreases |calls|
  {
    if calls == [] then 0
    else (if calls[0].ModelCalled? then 1 else 0) + ModelCalls(calls[1..])
  }

  /** The number of commit calls in a trace. */
  function CommitCalls(calls: seq<Call>): nat
    decreases |calls|
  {
    if calls == [] then 0
    else (if calls[0].Committed? then 1 else 0) + CommitCalls(calls[1..])
  }

  /** The outcome and the calls of one `generateCommitMessage(files)`. */
  datatype Generation = Generation(result: Result<Option<string>, GitError>, calls: seq<Call>)

  /** `generateCommitMessage(files)` against a repository whose branch and
      diff reads give `branch` and `diff` (`None`: the read throws). */
  function GenerationRun(files: seq<string>, branch: Option<string>, diff: Option<string>, model: Model): Generation {
    if |files| == 0 then Generation(Ok(None), [])
    else
      match branch
      case None => Generation(Err(GitError(BranchRead)), [BranchRead])
      case Some(b) =>
        match diff
        case None => Generation(Err(GitError(StagedDiffRead)), [BranchRead, StagedDiffRead])
        case Some(d) =>
          var prompt := Prompt(b, d);
          Generation(Ok(MessageFromReply(model(prompt))), [BranchRead, StagedDiffRead, ModelCalled(prompt)])
  }

  /** `!commitMessage`: `null` and `""` are falsy. */
  predicate Truthy(message: Option<string>) {
    message.Some? && message.value != ""
  }

  /** The outcome, the calls and the new commits of one `commitChanges()`. */
  datatype Publication = Publication(result: Result<(), GitError>, calls: seq<Call>, committed: seq<string>)

  /** `commitChanges()` against a repository whose name-only diff, branch
      and diff reads give `names`, `branch` and `diff`, and which accepts a
      commit exactly when `acceptsCommit`. */
  function CommitRun(names: Option<string>, branch: Option<string>, diff: Option<string>,
                     acceptsCommit: bool, model: Model): Publication {
    match names
    case None => Publication(Err(GitError(StagedNamesRead)), [StagedNamesRead], [])
    case Some(output) =>
      var g := GenerationRun(StagedFilesOf(output), branch, diff, model);
      var calls := [StagedNamesRead] + g.calls;
      match g.result
      case Err(e) => Publication(Err(e), calls, [])
      case Ok(message) =>
        if !Truthy(message) then Publication(Ok(()), calls, [])
        else if acceptsCommit then Publication(Ok(()), calls + [Committed(message.value)], [message.value])
        else Publication(Err(GitError(Committed(message.value))), calls + [Committed(message.value)], [])
  }

  // ---------------------------------------------------------------------
  // Properties of the two operations
  // ---------------------------------------------------------------------

  /** With no files, nothing is read, the model is not called, and the
      result is `null`. */
  lemma NoFilesNoCalls(branch: Option<string>, diff: Option<string>, model: Model)
    ensures GenerationRun([], branch, diff, model) == Generation(Ok(None), [])
  {
  }

  /** With files, the branch is read first, then the diff, then the model
      is called once with the prompt built from both; a failing read
      propagates and stops the sequence before the model is called. */
  lemma GenerationCallOrder(files: seq<string>, branch: Option<string>, diff: Option<string>, model: Model)
    requires |files| > 0
    ensures var g := GenerationRun(files, branch, diff, model);
      && g.calls[0] == BranchRead
      && (branch.None? ==> g == Generation(Err(GitError(BranchRead)), [BranchRead]))
      && (branch.Some? && diff.None? ==>
            g == Generation(Err(GitError(StagedDiffRead)), [BranchRead, StagedDiffRead]))
      && (g.result.Ok? <==> branch.Some? && diff.Some?)
      && (g.result.Ok? ==> g.calls == [BranchRead, StagedDiffRead, ModelCalled(Prompt(branch.value, diff.value))])
      && ModelCalls(g.calls) == (if g.result.Ok? then 1 else 0)
  {
    var g := GenerationRun(files, branch, diff, model);
    if g.result.Ok? {
      var p := Prompt(branch.value, diff.value);
      assert ModelCalls([ModelCalled(p)]) == 1;
      assert [BranchRead, StagedDiffRead, ModelCalled(p)][1..] == [StagedDiffRead, ModelCalled(p)];
      assert [StagedDiffRead, ModelCalled(p)][1..] == [ModelCalled(p)];
    } else if branch.Some? {
      assert [BranchRead, StagedDiffRead][1..] == [StagedDiffRead];
    }
  }

  /** The message is the first part text of the model's answer, unchanged
      and never empty; a thrown model call gives `null`. */
  lemma GeneratedMessage(files: seq<string>, b: string, d: string, model: Model)
    requires |files| > 0
    ensures var r := GenerationRun(files, Some(b), Some(d), model).result;
      && (model(Prompt(b, d)).Threw? ==> r == Ok(None))
      && (forall m :: r == Ok(Some(m)) ==>
            m != "" && model(Prompt(b, d)).Replied? && FirstPartText(model(Prompt(b, d)).result) == Some(m))
  {
  }

  /** `generateCommitMessage` neither commits nor pushes. */
  lemma GenerationNeitherCommitsNorPushes(files: seq<string>, branch: Option<string>, diff: Option<string>, model: Model)
    ensures var g := GenerationRun(files, branch, diff, model);
      CommitCalls(g.calls) == 0 && Pushed !in g.calls
  {
    var g := GenerationRun(files, branch, diff, model);
    NoCommitIn(g.calls);
  }

  /** A trace without a commit call counts no commit. */
  lemma {:induction false} NoCommitIn(calls: seq<Call>)
    requires forall k :: 0 <= k < |calls| ==> !calls[k].Committed?
    ensures CommitCalls(calls) == 0
    decreases |calls|
  {
    if calls != [] {
      assert forall k :: 0 <= k < |calls[1..]| ==> calls[1..][k] == calls[k + 1];
      NoCommitIn(calls[1..]);
    }
  }

  /** A commit happens at most once, with exactly the generated text, and
      only when reading succeeded, a message exists and git accepts it.
      Nothing is ever pushed. */
  lemma CommitAtMostOnce(names: Option<string>, branch: Option<string>, diff: Option<string>,
                         acceptsCommit: bool, model: Model)
    ensures var p := CommitRun(names, branch, diff, acceptsCommit, model);
      && |p.committed| <= 1
      && CommitCalls(p.calls) <= 1
      && Pushed !in p.calls
      && (forall m :: p.committed == [m] <==>
            && names.Some?
            && GenerationRun(StagedFilesOf(names.value), branch, diff, model).result == Ok(Some(m))
            && acceptsCommit)
  {
    if names.Some? {
      var g := GenerationRun(StagedFilesOf(names.value), branch, diff, model);
      GenerationNeitherCommitsNorPushes(StagedFilesOf(names.value), branch, diff, model);
      CommitCallsAppend([StagedNamesRead], g.calls);
      assert CommitCalls([StagedNamesRead]) == 0;
      if g.result.Ok? && Truthy(g.result.value) {
        var calls := [StagedNamesRead] + g.calls;
        CommitCallsAppend(calls, [Committed(g.result.value.value)]);
      }
    }
  }

  lemma {:induction false} CommitCallsAppend(a: seq<Call>, b: seq<Call>)
    ensures CommitCalls(a + b) == CommitCalls(a) + CommitCalls(b)
    decreases |a|
  {
    if a == [] {
      assert a + b == b;
    } else {
      assert (a + b)[1..] == a[1..] + b;
      CommitCallsAppend(a[1..], b);
    }
  }

  /** When the name-only diff lists no file, only that read happens. */
  lemma NothingStagedNothingCommitted(output: string, branch: Option<string>, diff: Option<string>,
                                      acceptsCommit: bool, model: Model)
    requires StagedFilesOf(output) == []
    ensures CommitRun(Some(output), branch, diff, acceptsCommit, model)
         == Publication(Ok(()), [StagedNamesRead], [])
  {
  }

  /** After an accepted commit both staged reads give `""`, so the next
      `commitChanges()` lists no file and commits nothing. */
  lemma RunAfterCommitCommitsNothing(branch: Option<string>, diff: Option<string>,
                                     acceptsCommit: bool, model: Model)
    ensures CommitRun(Some(""), branch, diff, acceptsCommit, model)
         == Publication(Ok(()), [StagedNamesRead], [])
  {
    assert Split("", '\n') == [""];
    assert Trim("") == "";
    assert StagedFilesOf("") == [];
  }

  // ---------------------------------------------------------------------
  // The repository and the two operations
  // ---------------------------------------------------------------------

  class Repository {
    /** What `git.branch()` reports as `current`; `None`: the call throws. */
    var branch: Option<string>
    /** The output of `git diff --cached --name-only`; `None`: it throws. */
    var nameOnlyDiff: Option<string>
    /** The output of `git diff --cached`; `None`: it throws. */
    var stagedDiff: Option<string>
    /** Whether `git.commit` succeeds (hooks, an empty index, ...). */
    var acceptsCommit: bool
    /** The commit messages, oldest first. */
    var commits: seq<string>
    /** Every collaborator call made so far, oldest first. */
    var trace: seq<Call>

    constructor (branch: Option<string>, nameOnlyDiff: Option<string>, stagedDiff: Option<string>,
                 acceptsCommit: bool, commits: seq<string>)
      ensures this.branch == branch && this.nameOnlyDiff == nameOnlyDiff
      ensures this.stagedDiff == stagedDiff && this.acceptsCommit == acceptsCommit
      ensures this.commits == commits && trace == []
    {
      this.branch := branch;
      this.nameOnlyDiff := nameOnlyDiff;
      this.stagedDiff := stagedDiff;
      this.acceptsCommit := acceptsCommit;
      this.commits := commits;
      trace := [];
    }

    /** `getCurrentBranch()`. */
    method CurrentBranch() returns (r: Result<string, GitError>)
      modifies this`trace
      ensures trace == old(trace) + [BranchRead]
      ensures r == if branch.Some? then Ok(branch.value) else Err(GitError(BranchRead))
    {
      trace := trace + [BranchRead];
      if branch.Some? {
        r := Ok(branch.value);
      } else {
        r := Err(GitError(BranchRead));
      }
    }

    /** `getStagedDiff()`. */
    method GetStagedDiff() returns (r: Result<string, GitError>)
      modifies this`trace
      ensures trace == old(trace) + [StagedDiffRead]
      ensures r == if stagedDiff.Some? then Ok(stagedDiff.value) else Err(GitError(StagedDiffRead))
    {
      trace := trace + [StagedDiffRead];
      if stagedDiff.Some? {
        r := Ok(stagedDiff.value);
      } else {
        r := Err(GitError(StagedDiffRead));
      }
    }

    /** `getStagedFiles()`. */
    method GetStagedFiles() returns (r: Result<seq<string>, GitError>)
      modifies this`trace
      ensures trace == old(trace) + [StagedNamesRead]
      ensures r == if nameOnlyDiff.Some? then Ok(StagedFilesOf(nameOnlyDiff.value))
                   else Err(GitError(StagedNamesRead))
    {
      trace := trace + [StagedNamesRead];
      if nameOnlyDiff.Some? {
        r := Ok(StagedFilesOf(nameOnlyDiff.value));
      } else {
        r := Err(GitError(StagedNamesRead));
      }
    }

    /** `model.generateContent(prompt)`. */
    method GenerateContent(prompt: string, model: Model) returns (reply: ModelReply)
      modifies this`trace
      ensures trace == old(trace) + [ModelCalled(prompt)]
      ensures reply == model(prompt)
    {
      trace := trace + [ModelCalled(prompt)];
      reply := model(prompt);
    }

    /** `git.commit(message)`. An accepted commit makes the index equal to
        the new HEAD, so nothing is staged any more: both `git diff --cached`
        reads give the empty output. */
    method Commit(message: string) returns (r: Result<(), GitError>)
      modifies this`trace, this`commits, this`nameOnlyDiff, this`stagedDiff
      ensures trace == old(trace) + [Committed(message)]
      ensures commits == if acceptsCommit then old(commits) + [message] else old(commits)
      ensures nameOnlyDiff == if acceptsCommit then Some("") else old(nameOnlyDiff)
      ensures stagedDiff == if acceptsCommit then Some("") else old(stagedDiff)
      ensures r == if acceptsCommit then Ok(()) else Err(GitError(Committed(message)))
    {
      trace := trace + [Committed(message)];
      if acceptsCommit {
        commits := commits + [message];
        nameOnlyDiff := Some("");
        stagedDiff := Some("");
        r := Ok(());
      } else {
        r := Err(GitError(Committed(message)));
      }
    }

    /** `generateCommitMessage(files)`: only the trace changes. */
    method GenerateCommitMessage(files: seq<string>, model: Model) returns (r: Result<Option<string>, GitError>)
      modifies this`trace
      ensures var g := GenerationRun(files, branch, stagedDiff, model);
        r == g.result && trace == old(trace) + g.calls
    {
      if |files| == 0 {
        return Ok(None);
      }
      var currentBranch :- CurrentBranch();
      var diffContents :- GetStagedDiff();
      var prompt := Prompt(currentBranch, diffContents);
      var reply := GenerateContent(prompt, model);
      r := Ok(MessageFromReply(reply));
    }

    /** `commitChanges()`: the commit log grows by the one commit made, if
        any, and after that commit nothing is staged. */
    method CommitChanges(model: Model) returns (r: Result<(), GitError>)
      modifies this`trace, this`commits, this`nameOnlyDiff, this`stagedDiff
      ensures var p := CommitRun(old(nameOnlyDiff), old(branch), old(stagedDiff), old(acceptsCommit), model);
        && r == p.result
        && trace == old(trace) + p.calls
        && commits == old(commits) + p.committed
        && nameOnlyDiff == (if p.committed == [] then old(nameOnlyDiff) else Some(""))
        && stagedDiff == (if p.committed == [] then old(stagedDiff) else Some(""))
    {
      ghost var names, b, d := nameOnlyDiff, branch, stagedDiff;
      ghost var trace0 := trace;
      var files :- GetStagedFiles();
      assert names.Some? && files == StagedFilesOf(names.value);
      ghost var g := GenerationRun(files, b, d, model);
      var commitMessage :- GenerateCommitMessage(files, model);
      assert g.result == Ok(commitMessage);
      assert trace == trace0 + ([StagedNamesRead] + g.calls);
      if !Truthy(commitMessage) {
        return Ok(());
      }
      r := Commit(commitMessage.value);
      assert trace == trace0 + ([StagedNamesRead] + g.calls + [Committed(commitMessage.value)]);
    }
  }
}
