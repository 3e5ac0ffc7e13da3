/** `PrismaPromptRepository` over an in-memory store. The store is the
    sequence of records in insertion order; each call that reaches the
    database takes a `fault` oracle: `Some(e)` means that call throws `e`. */
module PromptRepository {
  import opened Results
  import opened Text
  import opened PromptEntity
  import opened Ordering

  /** One repository call, as the use-case tests observe it through spies. */
  datatype Call =
    | CreateCall(dto: CreatePromptDto)
    | FindManyCall
    | FindByTitleCall(title: string)
    | SearchManyCall(term: Option<string>)

  /** What running a use case produces: its outcome, the store afterwards,
      and the repository calls it made, in order. */
  datatype Run<+T> = Run(result: Result<T>, store: seq<Prompt>, calls: seq<Call>)

  /** `create`: inserts a record holding the payload's title and content and
      the store-assigned id and timestamps. */
  function Create(store: seq<Prompt>, dto: CreatePromptDto, stamp: Assigned, fault: Option<Error>)
    : (r: Result<seq<Prompt>>)
    ensures fault.Some? ==> r == Err(fault.value)
    ensures fault.None? ==> r.Ok?
    ensures r.Ok? ==>
      && |r.value| == |store| + 1
      && r.value[..|store|] == store
      && r.value[|store|].title == dto.title
      && r.value[|store|].content == dto.content
      && r.value[|store|].id == stamp.id
      && r.value[|store|].createdAt == stamp.now
  {
    match fault
    case Some(e) => Err(e)
    case None => Ok(store + [Prompt(stamp.id, dto.title, dto.content, stamp.now, stamp.now)])
  }

  /** `findMany`: every record, newest first. */
  function FindMany(store: seq<Prompt>, fault: Option<Error>): (r: Result<seq<Prompt>>)
    ensures fault.Some? ==> r == Err(fault.value)
    ensures fault.None? ==> r.Ok? && SortedDesc(r.value) && multiset(r.value) == multiset(store)
  {
    match fault
    case Some(e) => Err(e)
    case None => Ok(SortDesc(store))
  }

  /** The first record of `store` whose title is exactly `title`. */
  function Lookup(store: seq<Prompt>, title: string): (r: Option<Prompt>)
    ensures r.Some? ==> r.value in store && r.value.title == title
    ensures r.None? <==> !HasTitle(store, title)
  {
    if store == [] then None
    else if store[0].title == title then Some(store[0])
    else
      assert forall p :: p in store && p != store[0] ==> p in store[1..];
      Lookup(store[1..], title)
  }

  /** `findByTitle` (a `findUnique` on the unique title column): the record
      whose title equals `title` exactly, or `null`. */
  function FindByTitle(store: seq<Prompt>, title: string, fault: Option<Error>)
    : (r: Result<Option<Prompt>>)
    ensures fault.Some? ==> r == Err(fault.value)
    ensures fault.None? ==> r.Ok?
    ensures r.Ok? && r.value.Some? ==> r.value.value in store && r.value.value.title == title
    ensures r.Ok? ==> (r.value.None? <==> !HasTitle(store, title))
  {
    match fault
    case Some(e) => Err(e)
    case None => Ok(Lookup(store, title))
  }

  /** When titles are unique, the record `findByTitle` returns is the only
      one with that title. */
  lemma FindByTitleIsUnique(store: seq<Prompt>, title: string, p: Prompt)
    requires UniqueTitles(store)
    requires FindByTitle(store, title, None) == Ok(Some(p))
    ensures forall q :: q in store && q.title == title ==> q == p
  {
  }

  /** The filter term `searchMany` actually uses: the trimmed term, or the
      empty string when the term is absent. */
  function NormalizeTerm(term: Option<string>): (q: string)
    ensures term.None? ==> q == ""
    ensures term.Some? ==> (q == "" <==> AllWhitespace(term.value))
    ensures q == [] || (!IsWhitespace(q[0]) && !IsWhitespace(q[|q| - 1]))
  {
    match term
    case None => ""
    case Some(s) => TrimEmptyIff(s); Trim(s)
  }

  /** The `where` clause: title OR content contains `q`, ignoring case. */
  predicate Matches(p: Prompt, q: string): (b: bool)
    ensures b <==> OccursIn(Lower(q), Lower(p.title)) || OccursIn(Lower(q), Lower(p.content))
  {
    IncludesIgnoringCase(p.title, q) || IncludesIgnoringCase(p.content, q)
  }

  /** Matching ignores the case of the term as well: a term and its
      lower-cased form select the same records. */
  lemma MatchesIgnoresTermCase(p: Prompt, q: string)
    ensures Matches(p, Lower(q)) <==> Matches(p, q)
  {
    LowerIdempotent(q);
  }

  /** The records of `s` that match `q`, in the order of `s`. */
  function Filter(s: seq<Prompt>, q: string): (r: seq<Prompt>)
    ensures forall x :: x in r <==> x in s && Matches(x, q)
  {
    if s == [] then []
    else
      var rest := Filter(s[1..], q);
      assert s == [s[0]] + s[1..];
      if Matches(s[0], q) then
        assert forall x :: x in rest ==> x in s[1..];
        [s[0]] + rest
      else
        rest
  }

  /** A matching record is kept as often as it occurs. */
  lemma {:induction false} FilterKeepsEveryMatch(s: seq<Prompt>, q: string, x: Prompt)
    requires Matches(x, q)
    ensures multiset(Filter(s, q))[x] == multiset(s)[x]
  {
    if s != [] {
      FilterKeepsEveryMatch(s[1..], q, x);
      assert s == [s[0]] + s[1..];
    }
  }

  /** Filtering deletes records and never adds or reorders any. */
  lemma {:induction false} FilterIsSubsequence(s: seq<Prompt>, q: string)
    ensures IsSubsequence(Filter(s, q), s)
  {
    if s != [] {
      FilterIsSubsequence(s[1..], q);
      var r := Filter(s, q);
      if Matches(s[0], q) {
        assert r[1..] == Filter(s[1..], q);
      } else {
        var rest := Filter(s[1..], q);
        if rest != [] {
          assert rest[0] in s[1..];
        }
      }
    }
  }

  /** `searchMany`: with no usable term, the same query as `findMany`;
      otherwise the records whose title or content contains the trimmed
      term, ignoring case, newest first. */
  function SearchMany(store: seq<Prompt>, term: Option<string>, fault: Option<Error>)
    : (r: Result<seq<Prompt>>)
    ensures fault.Some? ==> r == Err(fault.value)
    ensures fault.None? ==> r.Ok? && SortedDesc(r.value)
    ensures NormalizeTerm(term) == "" ==> r == FindMany(store, fault)
    ensures r.Ok? && NormalizeTerm(term) != "" ==>
      && (forall x :: x in r.value <==> x in store && Matches(x, NormalizeTerm(term)))
      && (forall x :: Matches(x, NormalizeTerm(term)) ==> multiset(r.value)[x] == multiset(store)[x])
  {
    var q := NormalizeTerm(term);
    match fault
    case Some(e) => Err(e)
    case None =>
      var all := SortDesc(store);
      if q == "" then Ok(all)
      else
        assert forall x :: x in all <==> x in multiset(store);
        FilterIsSubsequence(all, q);
        SubsequenceKeepsOrder(Filter(all, q), all);
        assert forall x :: Matches(x, q) ==> multiset(Filter(all, q))[x] == multiset(store)[x] by {
          forall x | Matches(x, q) ensures multiset(Filter(all, q))[x] == multiset(store)[x] {
            FilterKeepsEveryMatch(all, q, x);
          }
        }
        Ok(Filter(all, q))
  }

  /** Whatever the term, `searchMany` answers with a subsequence of what
      `findMany` answers: the filter keeps the order and adds nothing. */
  lemma SearchManyIsSubsequenceOfFindMany(store: seq<Prompt>, term: Option<string>)
    ensures IsSubsequence(SearchMany(store, term, None).value, FindMany(store, None).value)
  {
    var all := SortDesc(store);
    if NormalizeTerm(term) == "" {
      SubsequenceReflexive(all);
    } else {
      FilterIsSubsequence(all, NormalizeTerm(term));
    }
  }

  /** Every sequence is a subsequence of itself. */
  lemma {:induction false} SubsequenceReflexive(s: seq<Prompt>)
    ensures IsSubsequence(s, s)
  {
    if s != [] {
      SubsequenceReflexive(s[1..]);
    }
  }

  /** Only the trimmed term matters: a term and its trimmed form search alike. */
  lemma SearchManyUsesTrimmedTerm(store: seq<Prompt>, term: string, fault: Option<Error>)
    ensures SearchMany(store, Some(term), fault) == SearchMany(store, Some(Trim(term)), fault)
  {
    TrimIdempotent(term);
  }
}
