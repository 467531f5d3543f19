/** What one call of the import does to the store, in closed form, and the properties
    the command promises: exact field mapping, locale completeness, skipping of
    ineligible and already imported proposals, all-or-nothing commit, idempotent re-runs
    and at most one imported project per proposal and budget. */
module ImportProofs {
  import opened Domain
  import opened ImportProposals

  /** The proposals of `ps` that the duplicate guard, asked against `st`, lets through. */
  function Pending(st: State, ps: seq<Proposal>, budget: BudgetId): (r: seq<Proposal>)
    ensures forall p :: p in r <==> p in ps && !ProposalAlreadyCopied(st, p, budget)
    decreases |ps|
  {
    if ps == [] then []
    else
      var init, last := ps[..|ps| - 1], ps[|ps| - 1];
      assert ps == init + [last];
      Pending(st, init, budget) + (if ProposalAlreadyCopied(st, last, budget) then [] else [last])
  }

  /** The proposals one call of the command imports from `st`, in selection order. */
  function PendingOf(st: State, form: Form): seq<Proposal>
  {
    Pending(st, Selected(st.proposals, form.originComponent), form.budget)
  }

  /** The store after importing exactly the proposals `cs`, in that order and without
      asking the guard again: each gets the next id, its project and its link. */
  function Commit(st: State, cs: seq<Proposal>, form: Form, locales: seq<Locale>): State
    decreases |cs|
  {
    if cs == [] then st
    else Created(Commit(st, cs[..|cs| - 1], form, locales), cs[|cs| - 1], form, locales)
  }

  /** One token for each of the `n` projects numbered from `first`. */
  function Tokens(first: ProjectId, n: nat): seq<Token>
  {
    seq(n, j requires 0 <= j < n => LinkResult(first + j))
  }

  /** There is at most one project of budget `b` linked to proposal `pid` by an
      "included_proposals" link. */
  predicate SingleCopy(st: State, pid: ProposalId, b: BudgetId)
  {
    forall l1, l2 ::
      (l1 in st.links && l2 in st.links && IncludesIn(st, l1, pid, b) && IncludesIn(st, l2, pid, b))
      ==> l1 == l2
  }

  predicate IncludesIn(st: State, l: Link, pid: ProposalId, b: BudgetId)
  {
    l.name == IncludedProposals && l.to == pid && l.from in st.projects && st.projects[l.from].budget == b
  }

  /** The invariant of the import: for every accepted proposal and every budget, at most
      one project of that budget includes the proposal. */
  ghost predicate AtMostOneCopyOfAccepted(st: State)
  {
    forall p, b :: p in st.proposals && p.state == Accepted ==> SingleCopy(st, p.id, b)
  }

  // ---------------------------------------------------------------------------
  // Helpers about sequences of proposals

  lemma DistinctMember(ps: seq<Proposal>, a: Proposal, b: Proposal)
    requires DistinctIds(ps) && a in ps && b in ps && a.id == b.id
    ensures a == b
  {
    var i :| 0 <= i < |ps| && ps[i] == a;
    var j :| 0 <= j < |ps| && ps[j] == b;
    assert i == j;
  }

  lemma {:induction false} SelectedDistinct(ps: seq<Proposal>, c: ComponentId)
    requires DistinctIds(ps)
    ensures DistinctIds(Selected(ps, c))
  {
    if ps != [] {
      var tail := ps[1..];
      assert DistinctIds(tail) by {
        forall i, j | 0 <= i < j < |tail| ensures tail[i].id != tail[j].id {
          assert tail[i] == ps[i + 1] && tail[j] == ps[j + 1];
        }
      }
      SelectedDistinct(tail, c);
      SelectedMembers(tail, c);
      var rest := Selected(tail, c);
      forall q | q in rest ensures q.id != ps[0].id {
        var j :| 0 <= j < |tail| && tail[j] == q;
        assert ps[j + 1] == q;
      }
    }
  }

  lemma {:induction false} PendingDistinct(st: State, ps: seq<Proposal>, budget: BudgetId)
    requires DistinctIds(ps)
    ensures DistinctIds(Pending(st, ps, budget))
    decreases |ps|
  {
    if ps != [] {
      var init, last := ps[..|ps| - 1], ps[|ps| - 1];
      assert DistinctIds(init) by {
        forall i, j | 0 <= i < j < |init| ensures init[i].id != init[j].id {
          assert init[i] == ps[i] && init[j] == ps[j];
        }
      }
      PendingDistinct(st, init, budget);
      var rest := Pending(st, init, budget);
      forall q | q in rest ensures q.id != last.id {
        var j :| 0 <= j < |init| && init[j] == q;
        assert ps[j] == q;
      }
    }
  }

  // ---------------------------------------------------------------------------
  // The closed form of the transaction block

  /** What `Commit` does to the projects: ids below the old counter keep their project,
      and the ids from the old counter on hold the projects built from `cs`, in order. */
  lemma CommitProjects(st: State, cs: seq<Proposal>, form: Form, locales: seq<Locale>)
    ensures var st1 := Commit(st, cs, form, locales);
      && st1.proposals == st.proposals
      && st1.nextId == st.nextId + |cs|
      && (forall k :: k in st1.projects <==> k in st.projects || st.nextId <= k < st.nextId + |cs|)
      && (forall k :: k in st.projects && k < st.nextId ==> st1.projects[k] == st.projects[k])
      && (forall k :: st.nextId <= k < st.nextId + |cs| ==>
            k in st1.projects && st1.projects[k] == BuildProject(k, cs[k - st.nextId], form, locales))
  {
    CommitProposals(st, cs, form, locales);
    CommitCounter(st, cs, form, locales);
    CommitKeys(st, cs, form, locales);
    CommitKeepsOld(st, cs, form, locales);
    CommitNew(st, cs, form, locales);
  }

  lemma {:induction false} CommitProposals(st: State, cs: seq<Proposal>, form: Form, locales: seq<Locale>)
    ensures Commit(st, cs, form, locales).proposals == st.proposals
    decreases |cs|
  {
    if cs != [] {
      CommitProposals(st, cs[..|cs| - 1], form, locales);
    }
  }

  lemma {:induction false} CommitKeys(st: State, cs: seq<Proposal>, form: Form, locales: seq<Locale>)
    ensures forall k :: k in Commit(st, cs, form, locales).projects
                        <==> k in st.projects || st.nextId <= k < st.nextId + |cs|
    decreases |cs|
  {
    if cs != [] {
      CommitKeys(st, cs[..|cs| - 1], form, locales);
      CommitCounter(st, cs[..|cs| - 1], form, locales);
    }
  }

  lemma {:induction false} CommitKeepsOld(st: State, cs: seq<Proposal>, form: Form, locales: seq<Locale>)
    ensures forall k :: k in st.projects && k < st.nextId ==>
                        k in Commit(st, cs, form, locales).projects
                        && Commit(st, cs, form, locales).projects[k] == st.projects[k]
    decreases |cs|
  {
    if cs != [] {
      CommitKeepsOld(st, cs[..|cs| - 1], form, locales);
      CommitCounter(st, cs[..|cs| - 1], form, locales);
    }
  }

  lemma {:induction false} CommitNew(st: State, cs: seq<Proposal>, form: Form, locales: seq<Locale>)
    ensures forall k :: st.nextId <= k < st.nextId + |cs| ==>
                        k in Commit(st, cs, form, locales).projects
                        && Commit(st, cs, form, locales).projects[k] == BuildProject(k, cs[k - st.nextId], form, locales)
    decreases |cs|
  {
    if cs != [] {
      var init := cs[..|cs| - 1];
      CommitNew(st, init, form, locales);
      CommitCounter(st, init, form, locales);
      assert forall j :: 0 <= j < |init| ==> cs[j] == init[j];
    }
  }

  /** What `Commit` does to the links: the old ones stay, and the new ones are exactly
      one "included_proposals" link per entry of `cs`, from its project to it. */
  lemma CommitLinks(st: State, cs: seq<Proposal>, form: Form, locales: seq<Locale>)
    ensures var st1 := Commit(st, cs, form, locales);
      && st.links <= st1.links
      && (forall j :: 0 <= j < |cs| ==> Link(IncludedProposals, st.nextId + j, cs[j].id) in st1.links)
      && (forall l :: l in st1.links && l !in st.links ==>
            && l.name == IncludedProposals && st.nextId <= l.from < st.nextId + |cs|
            && l.to == cs[l.from - st.nextId].id)
  {
    CommitLinksGrow(st, cs, form, locales);
    CommitLinksOnly(st, cs, form, locales);
  }

  lemma {:induction false} CommitLinksGrow(st: State, cs: seq<Proposal>, form: Form, locales: seq<Locale>)
    ensures st.links <= Commit(st, cs, form, locales).links
    ensures forall j :: 0 <= j < |cs| ==> Link(IncludedProposals, st.nextId + j, cs[j].id) in Commit(st, cs, form, locales).links
    decreases |cs|
  {
    if cs != [] {
      var init := cs[..|cs| - 1];
      CommitLinksGrow(st, init, form, locales);
      CommitCounter(st, init, form, locales);
      assert forall j :: 0 <= j < |init| ==> cs[j] == init[j];
    }
  }

  lemma {:induction false} CommitLinksOnly(st: State, cs: seq<Proposal>, form: Form, locales: seq<Locale>)
    ensures forall l :: l in Commit(st, cs, form, locales).links && l !in st.links ==>
              && l.name == IncludedProposals && st.nextId <= l.from < st.nextId + |cs|
              && l.to == cs[l.from - st.nextId].id
    decreases |cs|
  {
    if cs != [] {
      var init := cs[..|cs| - 1];
      CommitLinksOnly(st, init, form, locales);
      CommitCounter(st, init, form, locales);
      assert forall j :: 0 <= j < |init| ==> cs[j] == init[j];
    }
  }

  /** The store invariant survives a commit. */
  lemma CommitValid(st: State, cs: seq<Proposal>, form: Form, locales: seq<Locale>)
    requires Valid(st)
    ensures Valid(Commit(st, cs, form, locales))
  {
    CommitProposals(st, cs, form, locales);
    CommitCounter(st, cs, form, locales);
    CommitKeys(st, cs, form, locales);
    CommitKeepsOld(st, cs, form, locales);
    CommitNew(st, cs, form, locales);
    CommitLinksOnly(st, cs, form, locales);
  }

  /** A project the commit added was built from the matching entry of `cs`. */
  lemma CreatedFrom(st: State, cs: seq<Proposal>, form: Form, locales: seq<Locale>, k: ProjectId)
    requires Valid(st)
    requires k in Commit(st, cs, form, locales).projects && k !in st.projects
    ensures st.nextId <= k < st.nextId + |cs|
    ensures Commit(st, cs, form, locales).projects[k] == BuildProject(k, cs[k - st.nextId], form, locales)
    ensures Link(IncludedProposals, k, cs[k - st.nextId].id) in Commit(st, cs, form, locales).links
  {
    CommitProjects(st, cs, form, locales);
    CommitLinks(st, cs, form, locales);
    var j := k - st.nextId;
    assert cs[j] == cs[j];
  }

  /** A link of the committed store that starts at a project the commit added, or that
      was not there before, is the new "included_proposals" link of that project. */
  lemma LinkAdded(st: State, cs: seq<Proposal>, form: Form, locales: seq<Locale>, l: Link)
    requires Valid(st)
    requires l in Commit(st, cs, form, locales).links
    requires l !in st.links || (l.from in Commit(st, cs, form, locales).projects && l.from !in st.projects)
    ensures l !in st.links
    ensures l.name == IncludedProposals && st.nextId <= l.from < st.nextId + |cs|
    ensures l.from in Commit(st, cs, form, locales).projects && l.from !in st.projects
    ensures l.to == cs[l.from - st.nextId].id
  {
    CommitKeys(st, cs, form, locales);
    CommitLinksOnly(st, cs, form, locales);
  }

  /** An old link still points at the same project, or at none, after the commit. */
  lemma OldLinkKept(st: State, cs: seq<Proposal>, form: Form, locales: seq<Locale>, l: Link)
    requires Valid(st)
    ensures var st1 := Commit(st, cs, form, locales);
      l in st.links ==>
        && l in st1.links
        && (l.from in st1.projects <==> l.from in st.projects)
        && (l.from in st.projects ==> st1.projects[l.from] == st.projects[l.from])
  {
    CommitLinksGrow(st, cs, form, locales);
    CommitKeys(st, cs, form, locales);
    CommitKeepsOld(st, cs, form, locales);
  }

  lemma {:induction false} CommitCounter(st: State, cs: seq<Proposal>, form: Form, locales: seq<Locale>)
    ensures Commit(st, cs, form, locales).nextId == st.nextId + |cs|
    decreases |cs|
  {
    if cs != [] {
      CommitCounter(st, cs[..|cs| - 1], form, locales);
    }
  }

  /** Importing one more proposal is one more non-skipped iteration. */
  lemma CommitSnoc(st: State, cs: seq<Proposal>, p: Proposal, form: Form, locales: seq<Locale>)
    ensures Commit(st, cs + [p], form, locales) == Created(Commit(st, cs, form, locales), p, form, locales)
  {
    assert (cs + [p])[..|cs|] == cs;
  }

  /** Projects and links created earlier in the batch do not change the guard's answer
      for a proposal with a different id. */
  lemma CopiedUnaffected(st: State, cs: seq<Proposal>, p: Proposal, form: Form, locales: seq<Locale>, b: BudgetId)
    requires Valid(st)
    requires forall q :: q in cs ==> q.id != p.id
    ensures ProposalAlreadyCopied(Commit(st, cs, form, locales), p, b) <==> ProposalAlreadyCopied(st, p, b)
  {
    var st1 := Commit(st, cs, form, locales);
    CommitProjects(st, cs, form, locales);
    CommitLinks(st, cs, form, locales);
    if ProposalAlreadyCopied(st, p, b) {
      var l :| l in st.links && l.name == IncludedProposals && l.to == p.id
        && l.from in st.projects && st.projects[l.from].budget == b;
      assert l in st1.links && l.from in st1.projects && st1.projects[l.from] == st.projects[l.from];
    }
    if ProposalAlreadyCopied(st1, p, b) {
      var l :| l in st1.links && l.name == IncludedProposals && l.to == p.id
        && l.from in st1.projects && st1.projects[l.from].budget == b;
      if l !in st.links {
        assert false;
      }
      assert l.from in st.projects;
    }
  }

  /** Whether the creation raises for one of `cs`. */
  predicate AnyFails(cs: seq<Proposal>, failing: set<ProposalId>)
  {
    exists p :: p in cs && p.id in failing
  }

  /** The transaction block in closed form: it raises when one of the pending proposals
      `cs` fails, and otherwise commits exactly `cs`, in order, one token each. */
  function ClosedBatch(st0: State, cs: seq<Proposal>, form: Form, locales: seq<Locale>, failing: set<ProposalId>): Batch
  {
    if AnyFails(cs, failing) then Failed
    else Done(Commit(st0, cs, form, locales), Tokens(st0.nextId, |cs|))
  }

  /** One more iteration of the block extends the closed form by the next proposal when
      the guard lets it through. */
  lemma ClosedStep(st0: State, cs: seq<Proposal>, p: Proposal, form: Form, locales: seq<Locale>, failing: set<ProposalId>)
    requires Valid(st0)
    requires forall q :: q in cs ==> q.id != p.id
    ensures Step(ClosedBatch(st0, cs, form, locales, failing), p, form, locales, failing)
         == ClosedBatch(st0, cs + (if ProposalAlreadyCopied(st0, p, form.budget) then [] else [p]), form, locales, failing)
  {
    var copied := ProposalAlreadyCopied(st0, p, form.budget);
    var cs2 := cs + (if copied then [] else [p]);
    if AnyFails(cs, failing) {
      var q :| q in cs && q.id in failing;
      assert q in cs2;
    } else {
      var st1 := Commit(st0, cs, form, locales);
      CopiedUnaffected(st0, cs, p, form, locales, form.budget);
      CommitCounter(st0, cs, form, locales);
      if copied {
        assert cs2 == cs;
      } else {
        assert p in cs2;
        if p.id !in failing {
          assert !AnyFails(cs2, failing);
          CommitSnoc(st0, cs, p, form, locales);
          assert Tokens(st0.nextId, |cs| + 1) == Tokens(st0.nextId, |cs|) + [LinkResult(st1.nextId)];
        }
      }
    }
  }

  /** The transaction block, which asks the guard against the state built so far, does
      what the closed form says: proposal ids are distinct, so nothing created earlier in
      the batch changes the guard's answer. */
  lemma {:induction false} BatchClosedForm(st0: State, ps: seq<Proposal>, form: Form, locales: seq<Locale>, failing: set<ProposalId>)
    requires Valid(st0) && DistinctIds(ps)
    ensures RunBatch(st0, ps, form, locales, failing)
         == ClosedBatch(st0, Pending(st0, ps, form.budget), form, locales, failing)
    decreases |ps|
  {
    if ps == [] {
      assert Commit(st0, [], form, locales) == st0;
    } else {
      var init, last := ps[..|ps| - 1], ps[|ps| - 1];
      assert DistinctIds(init) by {
        forall i, j | 0 <= i < j < |init| ensures init[i].id != init[j].id {
          assert init[i] == ps[i] && init[j] == ps[j];
        }
      }
      BatchClosedForm(st0, init, form, locales, failing);
      var cs := Pending(st0, init, form.budget);
      forall q | q in cs ensures q.id != last.id {
        var j :| 0 <= j < |init| && init[j] == q;
        assert ps[j] == q;
      }
      ClosedStep(st0, cs, last, form, locales, failing);
    }
  }

  // ---------------------------------------------------------------------------
  // Properties of one call

  /** All or nothing: an invalid form and a raise both leave the store as it was; a
      successful run commits exactly the pending proposals, one project and one token
      each, in selection order. */
  lemma ImportClosedForm(st: State, form: Form, locales: seq<Locale>, failing: set<ProposalId>)
    requires Valid(st)
    ensures var cs := PendingOf(st, form);
      Import(st, form, locales, failing)
      == if !form.valid then (st, Invalid)
         else if AnyFails(cs, failing) then (st, Raised)
         else (Commit(st, cs, form, locales), Ok(Tokens(st.nextId, |cs|)))
  {
    SelectedDistinct(st.proposals, form.originComponent);
    BatchClosedForm(st, Selected(st.proposals, form.originComponent), form, locales, failing);
  }

  /** The two shapes of a call's result, read off the closed form. */
  lemma ImportResult(st: State, form: Form, locales: seq<Locale>, failing: set<ProposalId>)
    requires Valid(st)
    ensures var (st1, out) := Import(st, form, locales, failing);
      var cs := PendingOf(st, form);
      && (!out.Ok? ==> st1 == st)
      && (out.Ok? ==> st1 == Commit(st, cs, form, locales))
  {
    ImportClosedForm(st, form, locales, failing);
  }

  /** The store invariant survives every call. */
  lemma ImportPreservesValid(st: State, form: Form, locales: seq<Locale>, failing: set<ProposalId>)
    requires Valid(st)
    ensures Valid(Import(st, form, locales, failing).0)
  {
    ImportResult(st, form, locales, failing);
    CommitValid(st, PendingOf(st, form), form, locales);
  }

  /** Proposals are never modified, existing projects keep their attributes and
      existing links stay. */
  lemma ImportNothingElseChanges(st: State, form: Form, locales: seq<Locale>, failing: set<ProposalId>)
    requires Valid(st)
    ensures var st1 := Import(st, form, locales, failing).0;
      && st1.proposals == st.proposals
      && (forall k :: k in st.projects ==> k in st1.projects && st1.projects[k] == st.projects[k])
      && st.links <= st1.links
  {
    ImportResult(st, form, locales, failing);
    CommitProjects(st, PendingOf(st, form), form, locales);
    CommitLinks(st, PendingOf(st, form), form, locales);
  }

  /** Every created project comes from an accepted proposal of the origin component that
      no project of the budget included yet, carries the form's budget and default amount,
      the proposal's category and scope, and its title and body under every locale, and
      is linked to that proposal. */
  lemma ImportFieldMapping(st: State, form: Form, locales: seq<Locale>, failing: set<ProposalId>)
    requires Valid(st)
    ensures var (st1, out) := Import(st, form, locales, failing);
      out.Ok? ==>
        forall k :: k in st1.projects && k !in st.projects ==>
          exists p :: p in st.proposals
            && p.component == form.originComponent && p.state == Accepted
            && !ProposalAlreadyCopied(st, p, form.budget)
            && Link(IncludedProposals, k, p.id) in st1.links
            && st1.projects[k] == Project(k, form.budget,
                 ProjectLocalized(locales, p.title), ProjectLocalized(locales, p.body),
                 form.defaultBudget, p.category, p.scope)
  {
    var cs := PendingOf(st, form);
    SelectedMembers(st.proposals, form.originComponent);
    ImportResult(st, form, locales, failing);
    var (st1, out) := Import(st, form, locales, failing);
    if out.Ok? {
      forall k | k in st1.projects && k !in st.projects
        ensures exists p ::
          && p in st.proposals
          && p.component == form.originComponent && p.state == Accepted
          && !ProposalAlreadyCopied(st, p, form.budget)
          && Link(IncludedProposals, k, p.id) in st1.links
          && st1.projects[k] == Project(k, form.budget,
               ProjectLocalized(locales, p.title), ProjectLocalized(locales, p.body),
               form.defaultBudget, p.category, p.scope)
      {
        CreatedFrom(st, cs, form, locales, k);
        var p := cs[k - st.nextId];
        assert p in cs;
      }
    }
  }

  /** `t` holds `text` under exactly the locales of `locales`. */
  predicate LocalizedIn(t: LocalizedText, locales: seq<Locale>, text: string)
  {
    t.Keys == (set l | l in locales) && forall l :: l in t ==> t[l] == text
  }

  /** The title and description of every created project have exactly the available
      locales as keys, each holding the title or the body of one proposal of the store. */
  lemma ImportLocaleCompleteness(st: State, form: Form, locales: seq<Locale>, failing: set<ProposalId>)
    requires Valid(st)
    ensures var (st1, out) := Import(st, form, locales, failing);
      out.Ok? ==>
        forall k :: k in st1.projects && k !in st.projects ==>
          exists p :: p in st.proposals
            && LocalizedIn(st1.projects[k].title, locales, p.title)
            && LocalizedIn(st1.projects[k].description, locales, p.body)
  {
    ImportResult(st, form, locales, failing);
    var (st1, out) := Import(st, form, locales, failing);
    if out.Ok? {
      forall k | k in st1.projects && k !in st.projects
        ensures exists p :: p in st.proposals
                  && LocalizedIn(st1.projects[k].title, locales, p.title)
                  && LocalizedIn(st1.projects[k].description, locales, p.body)
      {
        LocalesOfCreated(st, form, locales, k);
      }
    }
  }

  /** The locale facts for the project under one new id `k`. */
  lemma LocalesOfCreated(st: State, form: Form, locales: seq<Locale>, k: ProjectId)
    requires Valid(st)
    requires k in Commit(st, PendingOf(st, form), form, locales).projects && k !in st.projects
    ensures var project := Commit(st, PendingOf(st, form), form, locales).projects[k];
      exists p :: p in st.proposals
        && LocalizedIn(project.title, locales, p.title)
        && LocalizedIn(project.description, locales, p.body)
  {
    var cs := PendingOf(st, form);
    SelectedMembers(st.proposals, form.originComponent);
    CreatedFrom(st, cs, form, locales, k);
    var p := cs[k - st.nextId];
    assert p in cs;
  }

  /** A proposal outside the selection, or one some project of the budget already
      includes, gets no new link, hence no new project. */
  lemma ImportSkips(st: State, form: Form, locales: seq<Locale>, failing: set<ProposalId>, p: Proposal)
    requires Valid(st)
    requires p in st.proposals
    requires p.component != form.originComponent || p.state != Accepted
             || ProposalAlreadyCopied(st, p, form.budget)
    ensures var st1 := Import(st, form, locales, failing).0;
      forall l :: l in st1.links && l !in st.links ==> l.to != p.id
  {
    var cs := PendingOf(st, form);
    SelectedMembers(st.proposals, form.originComponent);
    ImportResult(st, form, locales, failing);
    var (st1, out) := Import(st, form, locales, failing);
    if out.Ok? {
      forall l | l in st1.links && l !in st.links ensures l.to != p.id {
        LinkAdded(st, cs, form, locales, l);
        var q := cs[l.from - st.nextId];
        assert q in cs;
        if q.id == p.id {
          DistinctMember(st.proposals, p, q);
        }
      }
    }
  }

  /** Every link a call adds is an "included_proposals" link from a project it created. */
  lemma ImportNewLinks(st: State, form: Form, locales: seq<Locale>, failing: set<ProposalId>)
    requires Valid(st)
    ensures var st1 := Import(st, form, locales, failing).0;
      forall l :: l in st1.links && l !in st.links ==>
        l.name == IncludedProposals && l.from in st1.projects && l.from !in st.projects
  {
    var cs := PendingOf(st, form);
    ImportResult(st, form, locales, failing);
    var (st1, out) := Import(st, form, locales, failing);
    if out.Ok? {
      forall l | l in st1.links && l !in st.links
        ensures l.name == IncludedProposals && l.from in st1.projects && l.from !in st.projects
      {
        LinkAdded(st, cs, form, locales, l);
      }
    }
  }

  /** Each project a call creates is the source of exactly one link. */
  lemma ImportLinksEachProjectOnce(st: State, form: Form, locales: seq<Locale>, failing: set<ProposalId>)
    requires Valid(st)
    ensures var st1 := Import(st, form, locales, failing).0;
      forall l1, l2 ::
        (l1 in st1.links && l2 in st1.links && l1.from == l2.from
         && l1.from in st1.projects && l1.from !in st.projects)
        ==> l1 == l2
  {
    var cs := PendingOf(st, form);
    ImportResult(st, form, locales, failing);
    var (st1, out) := Import(st, form, locales, failing);
    if out.Ok? {
      forall l1, l2 | l1 in st1.links && l2 in st1.links && l1.from == l2.from
                      && l1.from in st1.projects && l1.from !in st.projects
        ensures l1 == l2
      {
        LinkAdded(st, cs, form, locales, l1);
        LinkAdded(st, cs, form, locales, l2);
      }
    }
  }

  /** The `:ok` list holds one token per created project, in creation order, and the
      created projects take the ids right after the old counter. */
  lemma ImportTokens(st: State, form: Form, locales: seq<Locale>, failing: set<ProposalId>)
    requires Valid(st)
    ensures var (st1, out) := Import(st, form, locales, failing);
      out.Ok? ==>
        && st1.nextId == st.nextId + |out.tokens|
        && (forall k :: k in st1.projects && k !in st.projects <==> st.nextId <= k < st1.nextId)
        && (forall j :: 0 <= j < |out.tokens| ==> out.tokens[j] == LinkResult(st.nextId + j))
  {
    ImportClosedForm(st, form, locales, failing);
    CommitProjects(st, PendingOf(st, form), form, locales);
  }

  /** After a successful run, every accepted proposal of the origin component is
      included by some project of the budget. */
  lemma ImportCopiesEveryEligible(st: State, form: Form, locales: seq<Locale>, failing: set<ProposalId>)
    requires Valid(st)
    ensures var (st1, out) := Import(st, form, locales, failing);
      out.Ok? ==>
        forall p :: p in st.proposals && p.component == form.originComponent && p.state == Accepted ==>
          ProposalAlreadyCopied(st1, p, form.budget)
  {
    var cs := PendingOf(st, form);
    SelectedMembers(st.proposals, form.originComponent);
    ImportResult(st, form, locales, failing);
    var (st1, out) := Import(st, form, locales, failing);
    if out.Ok? {
      forall p | p in st.proposals && p.component == form.originComponent && p.state == Accepted
        ensures ProposalAlreadyCopied(st1, p, form.budget)
      {
        CopiedAfterCommit(st, cs, form, locales, p);
      }
    }
  }

  /** The guard's answer for one eligible proposal after the commit. */
  lemma CopiedAfterCommit(st: State, cs: seq<Proposal>, form: Form, locales: seq<Locale>, p: Proposal)
    requires Valid(st)
    requires p in cs || ProposalAlreadyCopied(st, p, form.budget)
    ensures ProposalAlreadyCopied(Commit(st, cs, form, locales), p, form.budget)
  {
    var st1 := Commit(st, cs, form, locales);
    CommitLinksGrow(st, cs, form, locales);
    if ProposalAlreadyCopied(st, p, form.budget) {
      CommitKeepsOld(st, cs, form, locales);
      var l :| l in st.links && l.name == IncludedProposals && l.to == p.id
        && l.from in st.projects && st.projects[l.from].budget == form.budget;
      assert l in st1.links && st1.projects[l.from] == st.projects[l.from];
    } else {
      CommitNew(st, cs, form, locales);
      var j :| 0 <= j < |cs| && cs[j] == p;
      var k: nat := st.nextId + j;
      assert Link(IncludedProposals, k, p.id) in st1.links && st1.projects[k].budget == form.budget;
    }
  }

  // ---------------------------------------------------------------------------
  // Properties of repeated calls

  lemma {:induction false} PendingEmpty(st: State, ps: seq<Proposal>, budget: BudgetId)
    requires forall p :: p in ps ==> ProposalAlreadyCopied(st, p, budget)
    ensures Pending(st, ps, budget) == []
    decreases |ps|
  {
    if ps != [] {
      assert ps[|ps| - 1] in ps;
      PendingEmpty(st, ps[..|ps| - 1], budget);
    }
  }

  /** Idempotence: a second run with the same valid form, right after a successful one,
      creates nothing, returns an empty `:ok` list and leaves the store unchanged. */
  lemma RerunIsNoOp(st: State, form: Form, locales: seq<Locale>, failing: set<ProposalId>,
                    locales2: seq<Locale>, failing2: set<ProposalId>)
    requires Valid(st)
    ensures var (st1, out) := Import(st, form, locales, failing);
      out.Ok? ==> Import(st1, form, locales2, failing2) == (st1, Ok([]))
  {
    var (st1, out) := Import(st, form, locales, failing);
    if out.Ok? {
      ImportPreservesValid(st, form, locales, failing);
      ImportNothingElseChanges(st, form, locales, failing);
      ImportCopiesEveryEligible(st, form, locales, failing);
      var sel := Selected(st1.proposals, form.originComponent);
      SelectedMembers(st1.proposals, form.originComponent);
      PendingEmpty(st1, sel, form.budget);
      ImportClosedForm(st1, form, locales2, failing2);
      assert Commit(st1, [], form, locales2) == st1;
      assert Tokens(st1.nextId, 0) == [];
    }
  }

  /** A run never gives a proposal a second project in one budget: for every proposal
      id and every budget, "at most one" holds after the call when it held before. */
  lemma ImportKeepsSingleCopy(st: State, form: Form, locales: seq<Locale>, failing: set<ProposalId>,
                              pid: ProposalId, b: BudgetId)
    requires Valid(st)
    requires SingleCopy(st, pid, b)
    ensures SingleCopy(Import(st, form, locales, failing).0, pid, b)
  {
    var cs := PendingOf(st, form);
    ImportClosedForm(st, form, locales, failing);
    var (st1, out) := Import(st, form, locales, failing);
    if out.Ok? {
      SelectedDistinct(st.proposals, form.originComponent);
      PendingDistinct(st, Selected(st.proposals, form.originComponent), form.budget);
      forall l1, l2 | l1 in st1.links && l2 in st1.links && IncludesIn(st1, l1, pid, b) && IncludesIn(st1, l2, pid, b)
        ensures l1 == l2
      {
        SingleCopyPair(st, cs, form, locales, pid, b, l1, l2);
      }
    }
  }

  /** The case analysis behind `ImportKeepsSingleCopy`, for one pair of links. */
  lemma SingleCopyPair(st: State, cs: seq<Proposal>, form: Form, locales: seq<Locale>,
                       pid: ProposalId, b: BudgetId, l1: Link, l2: Link)
    requires Valid(st) && SingleCopy(st, pid, b) && DistinctIds(cs)
    requires forall p :: p in cs ==> !ProposalAlreadyCopied(st, p, form.budget)
    requires var st1 := Commit(st, cs, form, locales);
      l1 in st1.links && l2 in st1.links && IncludesIn(st1, l1, pid, b) && IncludesIn(st1, l2, pid, b)
    ensures l1 == l2
  {
    var st1 := Commit(st, cs, form, locales);
    OldLinkKept(st, cs, form, locales, l1);
    OldLinkKept(st, cs, form, locales, l2);
    if l1 in st.links && l2 in st.links {
      assert IncludesIn(st, l1, pid, b) && IncludesIn(st, l2, pid, b);
    } else {
      // One of the two links is new, so `pid` is a pending proposal that no project of
      // budget `b` included before: the other link cannot be an old one either.
      var n := if l1 !in st.links then l1 else l2;
      LinkAdded(st, cs, form, locales, n);
      CreatedFrom(st, cs, form, locales, n.from);
      var q := cs[n.from - st.nextId];
      assert q in cs;
      assert q.id == pid && b == form.budget;
      assert l1 !in st.links && l2 !in st.links;
      LinkAdded(st, cs, form, locales, l1);
      LinkAdded(st, cs, form, locales, l2);
      var j1, j2 := l1.from - st.nextId, l2.from - st.nextId;
      assert cs[j1].id == cs[j2].id;
      assert j1 == j2;
    }
  }

  /** The same bound, stated over the accepted proposals of the store. */
  lemma ImportKeepsAtMostOneCopy(st: State, form: Form, locales: seq<Locale>, failing: set<ProposalId>)
    requires Valid(st) && AtMostOneCopyOfAccepted(st)
    ensures AtMostOneCopyOfAccepted(Import(st, form, locales, failing).0)
  {
    var st1 := Import(st, form, locales, failing).0;
    ImportNothingElseChanges(st, form, locales, failing);
    forall p, b | p in st1.proposals && p.state == Accepted ensures SingleCopy(st1, p.id, b) {
      ImportKeepsSingleCopy(st, form, locales, failing, p.id, b);
    }
  }
}
