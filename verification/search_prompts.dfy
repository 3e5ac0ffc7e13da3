/** `SearchPromptsUseCase.execute`, as its test pins it down: trim the term,
    then make exactly one repository read, `findMany` for an empty term and
    `searchMany(trimmed)` otherwise. `undefined`/`null` count as empty. */
module SearchPrompts {
  import opened Results
  import opened Text
  import opened PromptEntity
  import opened Ordering
  import opened PromptRepository

  /** One `execute(term)` call: the repository read it makes and what it
      answers. Absent, empty and all-white-space terms list everything with
      `findMany`; any other term is trimmed and passed to `searchMany`. */
  function Execute(store: seq<Prompt>, term: Option<string>, fault: Option<Error>)
    : (run: Run<seq<Prompt>>)
    ensures run.store == store
    ensures |run.calls| == 1
    ensures run.calls[0] == FindManyCall <==> NormalizeTerm(term) == ""
    ensures run.calls[0].SearchManyCall? <==> NormalizeTerm(term) != ""
    ensures run.calls[0].SearchManyCall? ==> run.calls[0].term == Some(NormalizeTerm(term))
    ensures run.result == SearchMany(store, term, fault)
  {
    var trimmed := NormalizeTerm(term);
    if trimmed == "" then
      Run(FindMany(store, fault), store, [FindManyCall])
    else
      SearchManyUsesTrimmedTerm(store, term.value, fault);
      Run(SearchMany(store, Some(trimmed), fault), store, [SearchManyCall(Some(trimmed))])
  }

  /** The in-memory repository of the use-case test: `searchMany` is
      `input.filter(...)`, which walks `input` front to back and pushes every
      record whose lowercased title or lowercased content includes the
      lowercased term. No trimming, and the order of `input` is kept. */
  function ReferenceSearchMany(input: seq<Prompt>, term: string): (r: seq<Prompt>)
    ensures |r| <= |input|
    ensures forall x :: x in r <==> x in input && Matches(x, term)
    decreases |input|
  {
    if input == [] then []
    else
      var kept := ReferenceSearchMany(input[..|input| - 1], term);
      var last := input[|input| - 1];
      assert input == input[..|input| - 1] + [last];
      if Includes(Lower(last.title), Lower(term)) || Includes(Lower(last.content), Lower(term)) then
        kept + [last]
      else
        kept
  }

  /** Filtering a sequence extended by one record filters the prefix and
      then decides about that record alone. */
  lemma {:induction false} FilterSnoc(s: seq<Prompt>, x: Prompt, q: string)
    ensures Filter(s + [x], q) == Filter(s, q) + (if Matches(x, q) then [x] else [])
    decreases |s|
  {
    if s == [] {
      assert ([] + [x])[1..] == [];
    } else {
      assert (s + [x])[0] == s[0];
      assert (s + [x])[1..] == s[1..] + [x];
      FilterSnoc(s[1..], x, q);
    }
  }

  /** The repository's filter and the test's `Array.filter` keep the same
      records in the same order, for every input and every term. */
  lemma {:induction false} FilterAgreesWithReference(s: seq<Prompt>, q: string)
    ensures Filter(s, q) == ReferenceSearchMany(s, q)
    decreases |s|
  {
    if s != [] {
      var init := s[..|s| - 1];
      var last := s[|s| - 1];
      assert s == init + [last];
      FilterAgreesWithReference(init, q);
      FilterSnoc(init, last, q);
    }
  }

  /** For every store and every term that is not blank, the repository's
      `searchMany` answers what the test's filter gives on the trimmed term
      over the store listed newest first. */
  lemma SearchManyAgreesWithReference(store: seq<Prompt>, term: string)
    ensures SearchMany(store, Some(term), None) == Ok(ReferenceSearchMany(SortDesc(store), Trim(term)))
  {
    FilterAgreesWithReference(SortDesc(store), Trim(term));
    if AllWhitespace(term) {
      TrimEmptyIff(term);
      FilterKeepsAllOnEmptyTerm(SortDesc(store));
    }
  }

  /** Every record includes the empty term, so filtering by it keeps all. */
  lemma {:induction false} FilterKeepsAllOnEmptyTerm(s: seq<Prompt>)
    ensures Filter(s, "") == s
  {
    if s != [] {
      assert Lower("") == "";
      assert IsPrefix("", Lower(s[0].title));
      assert Matches(s[0], "");
      FilterKeepsAllOnEmptyTerm(s[1..]);
      assert s == [s[0]] + s[1..];
    }
  }

  /** The two records of the use-case test. */
  const FirstPrompt: Prompt := Prompt("1", "AI Prompt 1", "Content 1", 0, 0)
  const SecondPrompt: Prompt := Prompt("2", "AI Prompt 2", "Content 2", 0, 0)

  /** Record `1` contains `Prompt 2` in neither its title nor its content. */
  lemma FirstPromptDoesNotMatch()
    ensures !Matches(FirstPrompt, "Prompt 2")
  {
    LowerFirstPrompt(FirstPrompt.title, FirstPrompt.content, "Prompt 2");
    FirstTitleLacksTerm("ai prompt 1", "prompt 2");
    FirstContentLacksTerm("content 1", "prompt 2");
  }

  /** The lowercased title and content of record `1`, and the lowercased term. */
  lemma LowerFirstPrompt(title: string, content: string, term: string)
    requires title == "AI Prompt 1" && content == "Content 1" && term == "Prompt 2"
    ensures Lower(title) == "ai prompt 1"
    ensures Lower(content) == "content 1"
    ensures Lower(term) == "prompt 2"
  {
  }

  /** `prompt 2` does not occur in `ai prompt 1`. */
  lemma FirstTitleLacksTerm(h: string, n: string)
    requires h == "ai prompt 1" && n == "prompt 2"
    ensures !Includes(h, n)
  {
    forall i | 0 <= i <= |h| ensures !IsPrefix(n, h[i..]) {
      if i < 3 { assert h[i..][0] == h[i] != n[0]; }
      else if i == 3 { assert h[i..][7] == h[10] != n[7]; }
      else { assert |h[i..]| < |n|; }
    }
  }

  /** `prompt 2` does not occur in `content 1`. */
  lemma FirstContentLacksTerm(h: string, n: string)
    requires h == "content 1" && n == "prompt 2"
    ensures !Includes(h, n)
  {
    forall i | 0 <= i <= |h| ensures !IsPrefix(n, h[i..]) {
      if i < |h| { assert h[i..][0] != n[0]; }
    }
  }

  /** Record `2` contains `Prompt 2` in its title. */
  lemma SecondPromptMatches()
    ensures Matches(SecondPrompt, "Prompt 2")
  {
    assert Lower("Prompt 2") == "prompt 2";
    assert Lower("AI Prompt 2") == "ai prompt 2";
    assert "ai prompt 2"[3..][..8] == "prompt 2";
  }

  /** The test's filtering case: the term `Prompt 2` keeps only record `2`. */
  lemma ReferenceFilterExample()
    ensures ReferenceSearchMany([FirstPrompt, SecondPrompt], "Prompt 2") == [SecondPrompt]
  {
    var both := [FirstPrompt, SecondPrompt];
    var first := [FirstPrompt];
    SecondPromptMatches();
    FirstPromptDoesNotMatch();
    assert both[..1] == first && first[..0] == [];
    assert ReferenceSearchMany(first, "Prompt 2") == [];
  }

  /** A term with surrounding spaces is trimmed and searched; `findMany` is
      not called. */
  lemma PaddedTermIsTrimmed(store: seq<Prompt>, fault: Option<Error>)
    ensures Execute(store, Some("  Prompt 1  "), fault).calls == [SearchManyCall(Some("Prompt 1"))]
  {
    PaddedTermTrimsToPrompt1("  Prompt 1  ");
  }

  /** The trimming step of the scenario above. */
  lemma PaddedTermTrimsToPrompt1(padded: string)
    requires padded == "  Prompt 1  "
    ensures NormalizeTerm(Some(padded)) == "Prompt 1"
  {
    var ends, words := "  ", "Prompt 1";
    assert AllWhitespace(ends);
    assert padded == ends + words + ends;
    TrimOfPadded(ends, words, ends);
  }

  /** A whitespace-only or absent term reads the whole list once and never
      calls `searchMany`. */
  lemma BlankTermListsEverything(store: seq<Prompt>, fault: Option<Error>)
    ensures Execute(store, Some("    "), fault).calls == [FindManyCall]
    ensures Execute(store, None, fault).calls == [FindManyCall]
  {
    TrimAllWhitespace("    ");
  }
}
