/** A worked instance of the import: three proposals of one component, two accepted and
    one rejected, imported into a budget with two locales and then imported again. */
module ImportScenario {
  import opened Domain
  import opened ImportProposals
  import opened ImportProofs

  const A := Proposal(1, 7, Accepted, "Park", "A new park", Some(3), None)
  const B := Proposal(2, 7, Accepted, "Bike lane", "Paint a lane", None, Some(4))
  const C := Proposal(3, 7, "rejected", "Fountain", "A fountain", None, None)
  const Start := State([A, B, C], map[], {}, 10)
  const Request := Form(true, 7, 5, 1000, 42)
  const Locales: seq<Locale> := ["en", "fr"]

  /** Two locales give a two-entry map. */
  lemma LocalizedInTwo(text: string)
    ensures ProjectLocalized(Locales, text) == map["en" := text, "fr" := text]
  {
    var m := ProjectLocalized(Locales, text);
    assert "en" in Locales && "fr" in Locales;
    assert m.Keys == {"en", "fr"};
  }

  /** Only A and B are selected and neither has been imported yet. */
  lemma PendingAtStart()
    ensures PendingOf(Start, Request) == [A, B]
  {
    assert Selected([C], 7) == [];
    assert Selected([B, C], 7) == [B];
    assert Selected(Start.proposals, 7) == [A, B];
    assert !ProposalAlreadyCopied(Start, A, 5) && !ProposalAlreadyCopied(Start, B, 5);
    assert [A, B][..1] == [A];
    assert Pending(Start, [A], 5) == [A];
  }

  const Expected := State(
    [A, B, C],
    map[
      10 := Project(10, 5, map["en" := "Park", "fr" := "Park"],
                    map["en" := "A new park", "fr" := "A new park"], 1000, Some(3), None),
      11 := Project(11, 5, map["en" := "Bike lane", "fr" := "Bike lane"],
                    map["en" := "Paint a lane", "fr" := "Paint a lane"], 1000, None, Some(4))],
    {Link(IncludedProposals, 10, 1), Link(IncludedProposals, 11, 2)},
    12)

  /** Committing A then B gives the expected store. */
  lemma CommitAtStart()
    ensures Commit(Start, [A, B], Request, Locales) == Expected
  {
    LocalizedInTwo("Park");
    LocalizedInTwo("A new park");
    LocalizedInTwo("Bike lane");
    LocalizedInTwo("Paint a lane");
    assert [A, B][..1] == [A];
    var once := Created(Start, A, Request, Locales);
    assert Commit(Start, [A], Request, Locales) == once;
  }

  /** The accepted proposals A and B each get a project of budget 5 with amount 1000 and
      their title and body under "en" and "fr", and one link back; C gets nothing. */
  lemma FirstRun()
    ensures Import(Start, Request, Locales, {}) == (Expected, Ok([LinkResult(10), LinkResult(11)]))
  {
    PendingAtStart();
    CommitAtStart();
    assert !AnyFails([A, B], {});
    ImportClosedForm(Start, Request, Locales, {});
    assert Tokens(10, 2) == [LinkResult(10), LinkResult(11)];
  }

  /** Running the same request again right afterwards creates nothing and changes nothing. */
  lemma SecondRun()
    ensures Import(Expected, Request, Locales, {}) == (Expected, Ok([]))
  {
    assert Valid(Start);
    FirstRun();
    RerunIsNoOp(Start, Request, Locales, {}, Locales, {});
  }
}
