/** The server actions `createPromptAction` and `searchPromptAction`: the
    boundary that validates input, runs a use case and turns every outcome,
    thrown errors included, into a result object for the page. */
module PromptActions {
  import opened Results
  import opened Text
  import opened PromptEntity
  import opened PromptRepository
  import CreatePrompts
  import SearchPrompts

  const ValidationFailedMessage: string := "Erro de validação"
  const AlreadyExistsMessage: string := "Este prompt já existe"
  const CreateFailedMessage: string := "Falha ao criar o prompt"
  const CreatedMessage: string := "Prompt criado com sucesso!"
  const SearchFailedMessage: string := "Falha ao buscar prompts."

  /** Per-field error messages of a failed schema check, kept opaque. */
  type FieldErrors = map<string, seq<string>>

  /** The outcome of `createPromptSchema.safeParse`: the parsed payload, or
      the flattened field errors. */
  datatype Validation = Valid(data: CreatePromptDto) | Invalid(errors: FieldErrors)

  /** The schema rejects a payload whose title or content is empty. */
  ghost predicate RejectsEmpty(validate: CreatePromptDto -> Validation) {
    forall d: CreatePromptDto :: d.title == "" || d.content == "" ==> validate(d).Invalid?
  }

  /** `{ success, message, errors? }`. */
  datatype CreateFormState = CreateFormState(success: bool, message: string, errors: Option<FieldErrors>)

  /** `{ success, prompts?, message? }`. */
  datatype SearchFormState = SearchFormState(
    success: bool,
    prompts: Option<seq<PromptSummary>>,
    message: Option<string>)

  /** An action's answer, with the store afterwards and the repository calls
      made on its behalf. */
  datatype ActionRun<+S> = ActionRun(state: S, store: seq<Prompt>, calls: seq<Call>)

  /** `createPromptAction`: validate, run the create use case on the parsed
      payload, and map each outcome to a fixed message. */
  function CreatePromptAction(
    store: seq<Prompt>,
    data: CreatePromptDto,
    validate: CreatePromptDto -> Validation,
    stamp: Assigned,
    faults: CreatePrompts.Faults)
    : (r: ActionRun<CreateFormState>)
    ensures validate(data).Invalid? ==>
      r == ActionRun(CreateFormState(false, ValidationFailedMessage, Some(validate(data).errors)), store, [])
    ensures validate(data).Valid? ==>
      var run := CreatePrompts.Execute(store, validate(data).data, stamp, faults);
      && r.store == run.store
      && r.calls == run.calls
      && r.state.errors.None?
      && (run.result.Ok? ==> r.state == CreateFormState(true, CreatedMessage, None))
      && (run.result.Err? && run.result.error.message == CreatePrompts.AlreadyExistsCode ==>
            r.state == CreateFormState(false, AlreadyExistsMessage, None))
      && (run.result.Err? && run.result.error.message != CreatePrompts.AlreadyExistsCode ==>
            r.state == CreateFormState(false, CreateFailedMessage, None))
    ensures r.state.success <==> |r.store| == |store| + 1
    ensures !r.state.success ==> r.store == store
  {
    match validate(data)
    case Invalid(errors) =>
      ActionRun(CreateFormState(false, ValidationFailedMessage, Some(errors)), store, [])
    case Valid(dto) =>
      var run := CreatePrompts.Execute(store, dto, stamp, faults);
      var state :=
        match run.result
        case Ok(_) => CreateFormState(true, CreatedMessage, None)
        case Err(e) =>
          if e.message == CreatePrompts.AlreadyExistsCode then CreateFormState(false, AlreadyExistsMessage, None)
          else CreateFormState(false, CreateFailedMessage, None);
      ActionRun(state, run.store, run.calls)
  }

  /** An empty title or content never reaches the repository: with a schema
      that rejects empty fields, the action reports a validation error and
      makes no call. */
  lemma EmptyFieldsAreRejected(
    store: seq<Prompt>, data: CreatePromptDto, validate: CreatePromptDto -> Validation,
    stamp: Assigned, faults: CreatePrompts.Faults)
    requires RejectsEmpty(validate)
    requires data.title == "" || data.content == ""
    ensures var r := CreatePromptAction(store, data, validate, stamp, faults);
      && r.state.message == ValidationFailedMessage && !r.state.success && r.state.errors.Some?
      && r.calls == [] && r.store == store
  {
  }

  /** A duplicate title is reported as such, and nothing is inserted. */
  lemma DuplicateTitleIsReported(
    store: seq<Prompt>, data: CreatePromptDto, validate: CreatePromptDto -> Validation,
    stamp: Assigned, faults: CreatePrompts.Faults)
    requires validate(data).Valid? && HasTitle(store, validate(data).data.title)
    requires faults.lookup.None?
    ensures var r := CreatePromptAction(store, data, validate, stamp, faults);
      && r.state == CreateFormState(false, AlreadyExistsMessage, None)
      && r.store == store
      && CreateCall(validate(data).data) !in r.calls
  {
  }

  /** The term the search action hands to the use case: the `q` form field
      trimmed, or the empty string when the field is absent. */
  function FormTerm(q: Option<string>): (term: string)
    ensures term == NormalizeTerm(q)
    ensures q.None? ==> term == ""
  {
    match q
    case None => ""
    case Some(s) => Trim(s)
  }

  /** The use case leaves the action's already trimmed term as it is, and
      searching with it answers what `searchMany` answers on the raw `q`. */
  lemma FormTermSearchesLikeQuery(store: seq<Prompt>, q: Option<string>, fault: Option<Error>)
    ensures NormalizeTerm(Some(FormTerm(q))) == FormTerm(q)
    ensures SearchPrompts.Execute(store, Some(FormTerm(q)), fault).result == SearchMany(store, q, fault)
  {
    match q
    case None =>
      assert Trim("") == "";
    case Some(s) =>
      TrimIdempotent(s);
      SearchManyUsesTrimmedTerm(store, s, fault);
  }

  /** `searchPromptAction`: run the search use case on the trimmed `q` and
      project the records to summaries; any error becomes one fixed message. */
  function SearchPromptAction(store: seq<Prompt>, q: Option<string>, fault: Option<Error>)
    : (r: ActionRun<SearchFormState>)
    ensures r.store == store
    ensures r.calls == (if FormTerm(q) == "" then [FindManyCall] else [SearchManyCall(Some(FormTerm(q)))])
    ensures fault.Some? ==> r.state == SearchFormState(false, None, Some(SearchFailedMessage))
    ensures fault.None? ==>
      var found := SearchMany(store, q, None).value;
      && r.state.success && r.state.message.None? && r.state.prompts.Some?
      && |r.state.prompts.value| == |found|
      && forall i :: 0 <= i < |found| ==>
           r.state.prompts.value[i] == PromptSummary(found[i].id, found[i].title, found[i].content)
  {
    var term := FormTerm(q);
    var run := SearchPrompts.Execute(store, Some(term), fault);
    FormTermSearchesLikeQuery(store, q, fault);
    var state :=
      match run.result
      case Ok(results) => SearchFormState(true, Some(Summaries(results)), None)
      case Err(_) => SearchFormState(false, None, Some(SearchFailedMessage));
    ActionRun(state, store, run.calls)
  }

  /** A query `   AI   ` reaches the repository as `searchMany('AI')`. */
  lemma PaddedQueryIsTrimmed(store: seq<Prompt>, fault: Option<Error>)
    ensures SearchPromptAction(store, Some("   AI   "), fault).calls == [SearchManyCall(Some("AI"))]
  {
    PaddedQueryTrimsToAI("   AI   ");
  }

  /** The trimming step of the scenario above. */
  lemma PaddedQueryTrimsToAI(padded: string)
    requires padded == "   AI   "
    ensures Trim(padded) == "AI"
  {
    var ends, word := "   ", "AI";
    assert AllWhitespace(ends);
    assert padded == ends + word + ends;
    TrimOfPadded(ends, word, ends);
  }

  /** Form data without `q` lists every prompt through `findMany`. */
  lemma AbsentQueryListsEverything(store: seq<Prompt>, fault: Option<Error>)
    ensures SearchPromptAction(store, None, fault).calls == [FindManyCall]
    ensures fault.None? ==>
      SearchPromptAction(store, None, fault).state.prompts == Some(Summaries(FindMany(store, None).value))
  {
    if fault.None? {
      var prompts := SearchPromptAction(store, None, fault).state.prompts.value;
      assert prompts == Summaries(FindMany(store, None).value);
    }
  }
}
