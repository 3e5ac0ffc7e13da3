# Prompt manager: repository, use cases and server actions

A Dafny model of the decision logic in a small prompt-manager web feature.
Users create "prompts" (a title and a content) and search them. The model
covers four layers:

- **Repository** (`PrismaPromptRepository`). `create`, `findMany`,
  `findByTitle` and `searchMany` run over an in-memory store: the sequence of
  records in insertion order. Every call that reaches the database takes a
  `fault` argument. `Some(e)` means that call throws `e`, which stands in for
  any storage failure.
- **Create use case** (`CreatePromptsUseCase.execute`). It looks the title up
  exactly. A duplicate throws `PROMPT_ALREADY_EXISTS`; otherwise the payload
  is inserted. The main invariant proved here is that titles stay unique.
- **Search use case** (`SearchPromptsUseCase.execute`). Its source is not part
  of this model; it is modelled from its test. It trims the term and makes
  exactly one repository read: `findMany` when the term is empty, and
  `searchMany(trimmed)` otherwise.
- **Server actions** (`createPromptAction`, `searchPromptAction`). They map
  validation failures, duplicates, other errors and successes to fixed result
  objects. They also normalise the `q` form field and project records to
  summaries.

Each use-case run returns a `Run`: the outcome, the store afterwards, and the
list of repository calls made (`Call`). The tests observe the same calls
through spies.

Files, one module each: `results.dfy` (`Option`, `Error`, `Result`),
`text.dfy` (JavaScript `trim`, `toLowerCase`, `includes`), `prompt.dfy`
(the entity, summary and payload), `ordering.dfy` (newest-first order and
subsequences), `prompt_repository.dfy`, `create_prompts.dfy`,
`search_prompts.dfy`, `prompt_actions.dfy`.

Where the tests and the code disagree, the model follows the code. The
repository's `findByTitle` uses `findUnique` on the title
(src/infra/repository/prisma-prompt.repository.ts:29). Its test mocks
`findFirst` instead (src/tests/infra/repository/prisma-prompt.repository.spec.ts:80).
The model does an exact, case-sensitive title match.

## Model

| member | source | states |
|---|---|---|
| `Text.Trim` | src/infra/repository/prisma-prompt.repository.ts:39 | `trim` never lengthens a string, and a non-empty result neither starts nor ends with white space. Its exact value is fixed by `Text.TrimIsACut` and `Text.TrimIsUniqueCut`. |
| `Text.TrimIsACut` | src/app/actions/prompt.actions.ts:64 | `trim` only removes white space: its result appears in the input at some offset with nothing but white space before and after it. |
| `Text.TrimIsUniqueCut` | src/infra/repository/prisma-prompt.repository.ts:39 | `trim` removes exactly the leading and trailing white space. Any cut of the string into white space, a middle part that neither starts nor ends with white space, and white space yields that middle part as `Trim`. |
| `Text.TrimOfPadded` | src/infra/repository/prisma-prompt.repository.ts:39 | White space on both sides of a part that neither starts nor ends with white space is removed by `trim`, giving that part back. |
| `Text.TrimIdempotent` | src/app/actions/prompt.actions.ts:64 | Trimming an already trimmed string changes nothing: `Trim(Trim(s)) == Trim(s)` for every string. |
| `Text.TrimEmptyIff` | src/infra/repository/prisma-prompt.repository.ts:39-48 | A string trims to `''` exactly when every character of it is white space, in both directions. |
| `Text.Lower` | src/tests/core/application/prompts/search-prompt.use-case.spec.ts:30-31 | Lower-casing keeps the length, leaves no upper-case ASCII letter, and changes a character exactly when it is an upper-case ASCII letter. Each upper-case letter becomes the lower-case letter at the same place in the alphabet. |
| `Text.LowerCharAlike` | src/tests/core/application/prompts/search-prompt.use-case.spec.ts:30-31 | Two characters lower-case alike exactly when they are equal or one is the upper-case ASCII form of the other. |
| `Text.LowerIdempotent` | src/tests/core/application/prompts/search-prompt.use-case.spec.ts:30-31 | Lower-casing an already lower-cased string changes nothing. |
| `Text.Includes` | src/tests/core/application/prompts/search-prompt.use-case.spec.ts:30-31 | `includes` is true exactly when the needle occurs at some position of the haystack. |
| `Ordering.SortDesc` | src/infra/repository/prisma-prompt.repository.ts:19-23 | Listing newest first by `createdAt` returns every record exactly as often as the store holds it (a permutation), with `createdAt` never increasing. |
| `Ordering.SubsequenceKeepsOrder` | src/infra/repository/prisma-prompt.repository.ts:40-51 | Deleting records from a newest-first list keeps it newest first. |
| `PromptRepository.Create` | src/infra/repository/prisma-prompt.repository.ts:9-16 | `create` appends exactly one record carrying the payload's title and content and the store-assigned id and time. Every existing record is unchanged. A failing insert throws its error. |
| `PromptRepository.FindMany` | src/infra/repository/prisma-prompt.repository.ts:18-26 | `findMany` answers with every record of the store (as a multiset) ordered by `createdAt` descending. A failing query throws. |
| `PromptRepository.Lookup` | src/infra/repository/prisma-prompt.repository.ts:28-36 | The lookup finds a record with exactly the given title, and finds none exactly when no record has that title. |
| `PromptRepository.FindByTitle` | src/infra/repository/prisma-prompt.repository.ts:28-36 | `findByTitle` returns a stored record whose title equals the argument exactly, or `null` exactly when no record has that title. A failing query throws. |
| `PromptRepository.FindByTitleIsUnique` | src/infra/repository/prisma-prompt.repository.ts:29-33 | When titles are unique, the record `findByTitle` returns is the only one with that title. |
| `PromptRepository.NormalizeTerm` | src/infra/repository/prisma-prompt.repository.ts:39 | The term `searchMany` uses is `''` when the term is absent, and `''` exactly when the given term is all white space. Otherwise it neither starts nor ends with white space. |
| `PromptRepository.Matches` | src/infra/repository/prisma-prompt.repository.ts:41-48 | A record matches exactly when the lower-cased term occurs at some position of its lower-cased title or of its lower-cased content. |
| `PromptRepository.MatchesIgnoresTermCase` | src/infra/repository/prisma-prompt.repository.ts:44-45 | `mode: 'insensitive'` applies to the term too: a term and its lower-cased form match the same records. |
| `PromptRepository.Filter` | src/infra/repository/prisma-prompt.repository.ts:41-48 | The `OR` filter keeps a record exactly when its title or its content contains the term, ignoring case. |
| `PromptRepository.FilterKeepsEveryMatch` | src/infra/repository/prisma-prompt.repository.ts:41-48 | A matching record is kept as many times as it occurs. |
| `PromptRepository.FilterIsSubsequence` | src/infra/repository/prisma-prompt.repository.ts:40-52 | Filtering only deletes records. It never adds or reorders any. |
| `PromptRepository.SearchMany` | src/infra/repository/prisma-prompt.repository.ts:38-55 | With an absent or blank term, `searchMany` gives the same answer as `findMany`. Otherwise it returns exactly the stored records whose title or content contains the trimmed term (ignoring case), each as often as stored, newest first. |
| `PromptRepository.SearchManyIsSubsequenceOfFindMany` | src/infra/repository/prisma-prompt.repository.ts:40-52 | For every term, the `searchMany` answer is a subsequence of the `findMany` answer. |
| `PromptRepository.SearchManyUsesTrimmedTerm` | src/infra/repository/prisma-prompt.repository.ts:39 | A term and its trimmed form produce the same search: only the trimmed term is used. |
| `CreatePrompts.Execute` | src/core/application/prompts/create-prompts.use-case.ts:7-15 | The first call is `findByTitle` with the title verbatim. A duplicate throws `PROMPT_ALREADY_EXISTS` and leaves the store unchanged, with no `create` call. Otherwise `create` is called exactly once with the same data. On success the store grows by one record with the given title and content. A run without `create` never changes the store. |
| `CreatePrompts.ExecuteKeepsTitlesUnique` | src/core/application/prompts/create-prompts.use-case.ts:8-14 | If titles are unique before `execute`, they are unique after it, whether it succeeds or throws. |
| `CreatePrompts.ExecuteAll` | src/core/application/prompts/create-prompts.use-case.ts:7-15 | Running `execute` requests one after another only ever appends: at most one record per request, and earlier records are unchanged. |
| `CreatePrompts.ExecuteAllKeepsTitlesUnique` | src/core/application/prompts/create-prompts.use-case.ts:8-14 | Starting from unique titles (for example, an empty store), any sequence of `execute` calls keeps titles unique. |
| `SearchPrompts.Execute` | src/tests/core/application/prompts/search-prompt.use-case.spec.ts:53-112 | Exactly one repository read per call. It is `findMany` exactly when the trimmed term is empty (blank, `undefined` or `null`). Otherwise it is `searchMany` with the trimmed term. The store is unchanged. The answer equals the repository's `searchMany` on the raw term. |
| `SearchPrompts.ReferenceSearchMany` | src/tests/core/application/prompts/search-prompt.use-case.spec.ts:27-32 | The test's in-memory `searchMany` keeps a record exactly when its lowercased title or content includes the lowercased term. The result is never longer than the input. |
| `SearchPrompts.FilterAgreesWithReference` | src/tests/core/application/prompts/search-prompt.use-case.spec.ts:27-32 | For every input and every term, the repository's filter and the test's front-to-back `Array.filter` give the same sequence: the same records in the same order. |
| `SearchPrompts.SearchManyAgreesWithReference` | src/tests/core/application/prompts/search-prompt.use-case.spec.ts:23-33 | For every store and every term, the repository's `searchMany` returns exactly what the test's filter gives on the trimmed term over the store listed newest first. A blank term trims to `''`, which every record includes. |
| `SearchPrompts.FilterKeepsAllOnEmptyTerm` | src/tests/core/application/prompts/search-prompt.use-case.spec.ts:27-32 | Every record includes the empty term, so filtering by `''` keeps every record in order. |
| `SearchPrompts.FirstPromptDoesNotMatch` | src/tests/core/application/prompts/search-prompt.use-case.spec.ts:6-13 | Record `1` (`AI Prompt 1` / `Content 1`) does not contain `Prompt 2`. |
| `SearchPrompts.SecondPromptMatches` | src/tests/core/application/prompts/search-prompt.use-case.spec.ts:14-20 | Record `2` (`AI Prompt 2`) contains `Prompt 2`. |
| `SearchPrompts.ReferenceFilterExample` | src/tests/core/application/prompts/search-prompt.use-case.spec.ts:43-51 | Searching `Prompt 2` over the two test records yields only record `2`. |
| `SearchPrompts.PaddedTermIsTrimmed` | src/tests/core/application/prompts/search-prompt.use-case.spec.ts:72-91 | The term `'  Prompt 1  '` makes the single call `searchMany('Prompt 1')` and no `findMany`. |
| `SearchPrompts.BlankTermListsEverything` | src/tests/core/application/prompts/search-prompt.use-case.spec.ts:53-70 | A blank term and an `undefined` term each make the single call `findMany` and never call `searchMany`. |
| `PromptActions.CreatePromptAction` | src/app/actions/prompt.actions.ts:21-58 | Invalid input gives `{false, 'Erro de validação', errors}` with no repository call and no change. Error message `PROMPT_ALREADY_EXISTS` gives `'Este prompt já existe'`. Any other error gives `'Falha ao criar o prompt'`. Success gives `{true, 'Prompt criado com sucesso!'}`. `success` holds exactly when the store grew by one. |
| `PromptActions.EmptyFieldsAreRejected` | src/app/actions/prompt.actions.ts:22-31 | If the schema rejects empty fields, an empty title or content yields the validation error and no repository call. |
| `PromptActions.DuplicateTitleIsReported` | src/app/actions/prompt.actions.ts:41-46 | A validated payload whose title is already stored yields `'Este prompt já existe'`, with no insert and no `create` call. |
| `PromptActions.FormTerm` | src/app/actions/prompt.actions.ts:64 | The action's term is the `q` field trimmed, or `''` when `q` is absent. It agrees with the repository's own normalisation. |
| `PromptEntity.Summaries` | src/app/actions/prompt.actions.ts:71-75 | The projection gives one summary per record, in the same order, each carrying that record's `id`, `title` and `content`. |
| `PromptActions.FormTermSearchesLikeQuery` | src/app/actions/prompt.actions.ts:64-69 | The use case's own trim leaves the action's term unchanged, and searching with that term answers what `searchMany` answers on the raw `q`. |
| `PromptActions.SearchPromptAction` | src/app/actions/prompt.actions.ts:60-87 | The use case reads `findMany` for a blank or absent `q`, and otherwise `searchMany(trim(q))`. Any error yields `{false, 'Falha ao buscar prompts.'}` with no `prompts`. On success, `prompts` is the repository's `searchMany(q)` answer projected element-wise to `{id, title, content}`, with the same length and order. |
| `PromptActions.PaddedQueryIsTrimmed` | src/tests/app/actions/prompt.actions.spec.ts:143-161 | `q = '   AI   '` reaches the repository as `searchMany('AI')`. |
| `PromptActions.AbsentQueryListsEverything` | src/tests/app/actions/prompt.actions.spec.ts:163-182 | Form data without `q` reads `findMany`. On success it lists every prompt as a summary. |

## Left out

- Database I/O, the Prisma client and `async`/`await` are left out. Calls are sequential functions over an in-memory store. A storage failure is a per-call `fault` argument.
- The database's own unique index on `title` is left out. `create` does not reject duplicates itself, so title uniqueness is proved from the use case's check alone.
- Concurrency is left out. Two simultaneous creations could both pass the title check; the database constraint would then reject the second with an error other than `PROMPT_ALREADY_EXISTS`.
- Ties in `createdAt` are broken in one fixed order, shared by `findMany` and `searchMany`. The database leaves that order unspecified, and its two queries may order equal timestamps differently.
- PromptRepository.SearchManyIsSubsequenceOfFindMany: holds for the program only when no two matching records share a `createdAt`. Otherwise the two separate queries may list tied records in different relative orders, and the model's shared tie order does not reflect that.
- SearchPrompts.SearchManyAgreesWithReference: holds for the program only when no two matching records share a `createdAt`. The newest-first order it compares against is the model's own fixed tie order, which the database does not promise.
- The store assigns ids and timestamps. The model takes them as an `Assigned` argument and claims nothing about id uniqueness.
- Case-insensitive matching uses ASCII lowercase only. Prisma's `mode: 'insensitive'` and JavaScript's `toLowerCase` use full Unicode case mapping, which is not modelled.
- Text.Lower: models `toLowerCase` on the record and `toLocaleLowerCase` on the term with the same ASCII mapping. `toLocaleLowerCase` depends on the host locale: under a Turkish locale `'AI'` lower-cases to `'aı'`, so the test's filter would not match `'AI Prompt 1'` while the model does. Locale-dependent mapping is not modelled.
- `createPromptSchema` (the Zod schema) is not part of this model. Validation is a function argument. The emptiness rule is the hypothesis `RejectsEmpty`, and the field errors are opaque.
- PromptActions.EmptyFieldsAreRejected: holds only under the hypothesis `RejectsEmpty`. The schema that would discharge it is not part of this model.
- `SearchPromptsUseCase` source is not part of this model. Its behaviour comes from its test.
- The test's in-memory repository returns its fixture in the order given, while the real repository lists newest first. The comparison with the test's filter is therefore stated over the store sorted newest first.
- `searchPromptAction`'s previous-state argument is left out, because the action ignores it. A `File` value in the `q` field is left out too; the action would convert it to a string.
- The sidebar component and its UI are left out: rendering, collapse/expand, search-box navigation and the `Novo Prompt` button. The server `Sidebar` wrapper's unused `findMany` query is also left out.
