/** The domain entity and its projections: `Prompt`, `PromptSummary` and
    the creation payload `CreatePromptDTO`. Timestamps are integers. */
module PromptEntity {

  /** A persisted prompt record. `id`, `createdAt` and `updatedAt` are
      assigned by the store, never by the caller. */
  datatype Prompt = Prompt(
    id: string,
    title: string,
    content: string,
    createdAt: int,
    updatedAt: int)

  /** The transport projection shown in the sidebar: no timestamps. */
  datatype PromptSummary = PromptSummary(id: string, title: string, content: string)

  /** The only accepted creation payload. */
  datatype CreatePromptDto = CreatePromptDto(title: string, content: string)

  /** The values the store assigns to a new record: its generated id and the
      current time, used for both `createdAt` and `updatedAt`. */
  datatype Assigned = Assigned(id: string, now: int)

  /** The summary the search action returns for a record: its id, title and
      content, without the timestamps. */
  function Summarize(p: Prompt): PromptSummary {
    PromptSummary(p.id, p.title, p.content)
  }

  /** The search results projected to summaries, one per record, in order. */
  function Summaries(ps: seq<Prompt>): (r: seq<PromptSummary>)
    ensures |r| == |ps|
    ensures forall i :: 0 <= i < |ps| ==> r[i] == Summarize(ps[i])
    ensures forall i :: 0 <= i < |ps| ==>
      r[i].id == ps[i].id && r[i].title == ps[i].title && r[i].content == ps[i].content
  {
    seq(|ps|, i requires 0 <= i < |ps| => Summarize(ps[i]))
  }

  /** Some record of `store` carries exactly this title. */
  predicate HasTitle(store: seq<Prompt>, title: string) {
    exists p :: p in store && p.title == title
  }

  /** No two records of `store` share a title: the store's declared invariant. */
  predicate UniqueTitles(store: seq<Prompt>) {
    forall i, j :: 0 <= i < j < |store| ==> store[i].title != store[j].title
  }
}
