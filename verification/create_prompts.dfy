/** `CreatePromptsUseCase.execute`: refuse a title that is already taken,
    otherwise insert the payload. */
module CreatePrompts {
  import opened Results
  import opened PromptEntity
  import opened PromptRepository

  /** The message of the error thrown for a duplicate title. */
  const AlreadyExistsCode: string := "PROMPT_ALREADY_EXISTS"

  /** Whether each of the two repository calls throws. */
  datatype Faults = Faults(lookup: Option<Error>, insert: Option<Error>)

  /** Looks the title up verbatim; throws `PROMPT_ALREADY_EXISTS` when a
      record has it, and otherwise delegates to `create` with the same data. */
  function Execute(store: seq<Prompt>, data: CreatePromptDto, stamp: Assigned, faults: Faults)
    : (run: Run<()>)
    ensures |run.calls| >= 1 && run.calls[0] == FindByTitleCall(data.title)
    ensures CreateCall(data) !in run.calls ==> run.store == store && run.result.Err?
    ensures faults.lookup.Some? ==> run == Run(Err(faults.lookup.value), store, [FindByTitleCall(data.title)])
    ensures faults.lookup.None? && HasTitle(store, data.title) ==>
      run == Run(Err(Error(AlreadyExistsCode)), store, [FindByTitleCall(data.title)])
    ensures faults.lookup.None? && !HasTitle(store, data.title) ==>
      && run.calls == [FindByTitleCall(data.title), CreateCall(data)]
      && (faults.insert.Some? ==> run.result == Err(faults.insert.value) && run.store == store)
      && (faults.insert.None? ==> run.result.Ok?)
    ensures run.result.Ok? ==>
      && |run.store| == |store| + 1
      && run.store[..|store|] == store
      && run.store[|store|].title == data.title
      && run.store[|store|].content == data.content
  {
    var lookup := [FindByTitleCall(data.title)];
    match FindByTitle(store, data.title, faults.lookup)
    case Err(e) => Run(Err(e), store, lookup)
    case Ok(Some(_)) => Run(Err(Error(AlreadyExistsCode)), store, lookup)
    case Ok(None) =>
      var calls := lookup + [CreateCall(data)];
      match Create(store, data, stamp, faults.insert)
      case Err(e) => Run(Err(e), store, calls)
      case Ok(next) => Run(Ok(()), next, calls)
  }

  /** Titles stay unique: whether `execute` succeeds or throws, a store with
      unique titles still has unique titles afterwards. */
  lemma ExecuteKeepsTitlesUnique(store: seq<Prompt>, data: CreatePromptDto, stamp: Assigned, faults: Faults)
    requires UniqueTitles(store)
    ensures UniqueTitles(Execute(store, data, stamp, faults).store)
  {
    var run := Execute(store, data, stamp, faults);
    if run.result.Ok? {
      var next := run.store;
      assert !HasTitle(store, data.title);
      forall i, j | 0 <= i < j < |next| ensures next[i].title != next[j].title {
        if j == |store| {
          assert next[i] == store[i] && store[i] in store;
        } else {
          assert next[i] == store[i] && next[j] == store[j];
        }
      }
    }
  }

  /** One creation request: the payload, the values the store assigns, and
      which of the two repository calls throws. */
  datatype Request = Request(data: CreatePromptDto, stamp: Assigned, faults: Faults)

  /** Runs the requests one after another, each on the store the previous
      one left behind. */
  function ExecuteAll(store: seq<Prompt>, requests: seq<Request>): (r: seq<Prompt>)
    ensures |store| <= |r| <= |store| + |requests|
    ensures r[..|store|] == store
    decreases |requests|
  {
    if requests == [] then store
    else
      var req := requests[0];
      var next := Execute(store, req.data, req.stamp, req.faults).store;
      var r := ExecuteAll(next, requests[1..]);
      assert r[..|store|] == r[..|next|][..|store|];
      r
  }

  /** Starting from any store with unique titles (the empty store included),
      every sequence of `execute` calls keeps titles unique. */
  lemma {:induction false} ExecuteAllKeepsTitlesUnique(store: seq<Prompt>, requests: seq<Request>)
    requires UniqueTitles(store)
    ensures UniqueTitles(ExecuteAll(store, requests))
    decreases |requests|
  {
    if requests != [] {
      var req := requests[0];
      ExecuteKeepsTitlesUnique(store, req.data, req.stamp, req.faults);
      ExecuteAllKeepsTitlesUnique(Execute(store, req.data, req.stamp, req.faults).store, requests[1..]);
    }
  }
}
