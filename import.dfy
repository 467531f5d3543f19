/** The admin command that imports the accepted proposals of one component into the
    projects of a budget (`Decidim::Budgets::Admin::ImportProposalsToBudgets`). */
module ImportProposals {
  import opened Domain

  /** The proposals the command iterates over: those of `component` whose state is
      exactly "accepted", in the store's order. */
  function Selected(ps: seq<Proposal>, component: ComponentId): (r: seq<Proposal>)
  {
    if ps == [] then []
    else
      (if ps[0].component == component && ps[0].state == Accepted then [ps[0]] else [])
      + Selected(ps[1..], component)
  }

  /** The selection keeps exactly the proposals of `component` in state "accepted". */
  lemma {:induction false} SelectedMembers(ps: seq<Proposal>, component: ComponentId)
    ensures forall p :: p in Selected(ps, component) <==> p in ps && p.component == component && p.state == Accepted
  {
    if ps != [] {
      SelectedMembers(ps[1..], component);
      assert ps == [ps[0]] + ps[1..];
    }
  }

  /** The duplicate guard: some project of `budget` already includes `p` by an
      "included_proposals" link. Links to projects that no longer exist are ignored. */
  predicate ProposalAlreadyCopied(st: State, p: Proposal, budget: BudgetId)
  {
    exists l :: l in st.links && l.name == IncludedProposals && l.to == p.id
      && l.from in st.projects && st.projects[l.from].budget == budget
  }

  /** The `inject` fold of `project_localized`: starting from `acc`, sets every locale
      of `locales` to `text`, one after another. */
  function LocalizeFrom(acc: LocalizedText, locales: seq<Locale>, text: string): (m: LocalizedText)
    ensures m.Keys == acc.Keys + (set l | l in locales)
    ensures forall l :: l in m ==> m[l] == (if l in locales then text else acc[l])
    decreases |locales|
  {
    if locales == [] then acc
    else LocalizeFrom(acc[locales[0] := text], locales[1..], text)
  }

  /** `project_localized`: the same text under every available locale. */
  function ProjectLocalized(locales: seq<Locale>, text: string): (m: LocalizedText)
    ensures m.Keys == set l | l in locales
    ensures forall l :: l in m ==> m[l] == text
  {
    LocalizeFrom(map[], locales, text)
  }

  /** The attributes `create_project_from_proposal!` gives the project with id `id`. */
  function BuildProject(id: ProjectId, p: Proposal, form: Form, locales: seq<Locale>): Project
  {
    Project(
      id,
      form.budget,
      ProjectLocalized(locales, p.title),
      ProjectLocalized(locales, p.body),
      form.defaultBudget,
      p.category,
      p.scope)
  }

  /** One non-skipped iteration: create the project under the next id and link it
      to the proposal it came from. */
  function Created(st: State, p: Proposal, form: Form, locales: seq<Locale>): State
  {
    var id := st.nextId;
    st.(projects := st.projects[id := BuildProject(id, p, form, locales)],
        links := st.links + {Link(IncludedProposals, id, p.id)},
        nextId := id + 1)
  }

  /** The state inside the transaction: either the work done so far with the tokens
      collected, or an exception raised by one of the creations. */
  datatype Batch = Done(st: State, tokens: seq<Token>) | Failed

  /** One iteration of the transaction block on proposal `p`: skip it when it is already
      copied, raise when its creation fails, and otherwise create and link its project. */
  function Step(b: Batch, p: Proposal, form: Form, locales: seq<Locale>, failing: set<ProposalId>): Batch
  {
    match b
    case Failed => Failed
    case Done(st, tokens) =>
      if ProposalAlreadyCopied(st, p, form.budget) then Done(st, tokens)
      else if p.id in failing then Failed
      else Done(Created(st, p, form, locales), tokens + [LinkResult(st.nextId)])
  }

  /** The transaction block run over `ps`, last proposal last. The creation of the
      project or of its link raises for exactly the proposals in `failing`; the first
      such raise ends the batch. */
  function RunBatch(st0: State, ps: seq<Proposal>, form: Form, locales: seq<Locale>, failing: set<ProposalId>): Batch
    decreases |ps|
  {
    if ps == [] then Done(st0, [])
    else Step(RunBatch(st0, ps[..|ps| - 1], form, locales, failing), ps[|ps| - 1], form, locales, failing)
  }

  /** How the transaction ends for the store `st` it started from: a raise rolls it back
      to `st`, otherwise its work is committed and its tokens are the `:ok` list. */
  function Settle(st: State, b: Batch): (State, Outcome)
  {
    match b
    case Failed => (st, Raised)
    case Done(st', tokens) => (st', Ok(tokens))
  }

  /** `call`: the store afterwards and the outcome. */
  function Import(st: State, form: Form, locales: seq<Locale>, failing: set<ProposalId>): (State, Outcome)
  {
    if !form.valid then (st, Invalid)
    else Settle(st, RunBatch(st, Selected(st.proposals, form.originComponent), form, locales, failing))
  }

  /** The batch over one more proposal is one more step. */
  lemma StepPrefix(st0: State, ps: seq<Proposal>, i: nat, form: Form, locales: seq<Locale>, failing: set<ProposalId>)
    requires i < |ps|
    ensures RunBatch(st0, ps[..i + 1], form, locales, failing)
            == Step(RunBatch(st0, ps[..i], form, locales, failing), ps[i], form, locales, failing)
  {
    assert ps[..i + 1][..i] == ps[..i];
  }

  /** A proposal that is already copied is skipped. */
  lemma StepSkips(st0: State, ps: seq<Proposal>, i: nat, cur: State, tokens: seq<Token>,
                  form: Form, locales: seq<Locale>, failing: set<ProposalId>)
    requires i < |ps| && RunBatch(st0, ps[..i], form, locales, failing) == Done(cur, tokens)
    requires ProposalAlreadyCopied(cur, ps[i], form.budget)
    ensures RunBatch(st0, ps[..i + 1], form, locales, failing) == Done(cur, tokens)
  {
    StepPrefix(st0, ps, i, form, locales, failing);
  }

  /** A proposal that is not copied yet and whose creation succeeds gets its project. */
  lemma StepCreates(st0: State, ps: seq<Proposal>, i: nat, cur: State, tokens: seq<Token>,
                    form: Form, locales: seq<Locale>, failing: set<ProposalId>)
    requires i < |ps| && RunBatch(st0, ps[..i], form, locales, failing) == Done(cur, tokens)
    requires !ProposalAlreadyCopied(cur, ps[i], form.budget) && ps[i].id !in failing
    ensures RunBatch(st0, ps[..i + 1], form, locales, failing)
            == Done(Created(cur, ps[i], form, locales), tokens + [LinkResult(cur.nextId)])
  {
    StepPrefix(st0, ps, i, form, locales, failing);
  }

  /** A proposal that is not copied yet and whose creation raises ends the batch. */
  lemma StepRaises(st0: State, ps: seq<Proposal>, i: nat, cur: State, tokens: seq<Token>,
                   form: Form, locales: seq<Locale>, failing: set<ProposalId>)
    requires i < |ps| && RunBatch(st0, ps[..i], form, locales, failing) == Done(cur, tokens)
    requires !ProposalAlreadyCopied(cur, ps[i], form.budget) && ps[i].id in failing
    ensures RunBatch(st0, ps, form, locales, failing) == Failed
  {
    StepPrefix(st0, ps, i, form, locales, failing);
    FailurePersists(st0, ps, i + 1, form, locales, failing);
  }

  /** Once an exception has been raised, processing more proposals does not undo it. */
  lemma {:induction false} FailurePersists(st0: State, ps: seq<Proposal>, n: nat, form: Form, locales: seq<Locale>, failing: set<ProposalId>)
    requires n <= |ps|
    requires RunBatch(st0, ps[..n], form, locales, failing) == Failed
    ensures RunBatch(st0, ps, form, locales, failing) == Failed
    decreases |ps| - n
  {
    if n == |ps| {
      assert ps[..n] == ps;
    } else {
      assert ps[..n + 1][..n] == ps[..n];
      assert RunBatch(st0, ps[..n + 1], form, locales, failing) == Failed;
      FailurePersists(st0, ps, n + 1, form, locales, failing);
    }
  }

  /** The command object, holding the form it was built with. `@project` lives only
      inside one creation step, so it is a local of `CreateProjectFromProposal`. */
  class ImportProposalsToBudgets {
    const form: Form

    constructor (form: Form)
      ensures this.form == form
    {
      this.form := form;
    }

    /** `call`: answers `Invalid` for an invalid form and otherwise runs the transaction
        and commits what it returns to the store. */
    method Call(store: Store, locales: seq<Locale>, failing: set<ProposalId>) returns (outcome: Outcome)
      modifies store
      ensures (store.Snapshot(), outcome) == Import(old(store.Snapshot()), form, locales, failing)
    {
      if !form.valid {
        outcome := Invalid;
        return;
      }
      var st1;
      st1, outcome := CreateProjectsFromAcceptedProposals(store.Snapshot(), locales, failing);
      store.projects, store.links, store.nextId := st1.projects, st1.links, st1.nextId;
    }

    /** `create_project_from_proposal!` followed by `link_resources`: creates the project
        for `p` under the next id and links it to `p`; the token stands for the value of
        the link call. The function `Created` is its specification. */
    method CreateProjectFromProposal(cur: State, p: Proposal, locales: seq<Locale>) returns (next: State, token: Token)
      ensures next == Created(cur, p, form, locales) && token == LinkResult(cur.nextId)
    {
      var project := BuildProject(cur.nextId, p, form, locales);
      next := cur.(projects := cur.projects[project.id := project],
                   links := cur.links + {Link(IncludedProposals, project.id, p.id)},
                   nextId := cur.nextId + 1);
      token := LinkResult(project.id);
    }

    /** `create_projects_from_accepted_proposals`: the transaction over the store `st`.
        It returns the store to commit, which is `st` itself when a creation raises. */
    method CreateProjectsFromAcceptedProposals(st: State, locales: seq<Locale>, failing: set<ProposalId>)
      returns (st1: State, outcome: Outcome)
      ensures (st1, outcome) == Settle(st, RunBatch(st, Selected(st.proposals, form.originComponent), form, locales, failing))
      ensures st1.proposals == st.proposals
    {
      var selected := Selected(st.proposals, form.originComponent);
      var cur := st;
      var tokens: seq<Token> := [];
      var i := 0;
      while i < |selected|
        invariant 0 <= i <= |selected|
        invariant RunBatch(st, selected[..i], form, locales, failing) == Done(cur, tokens)
        invariant cur.proposals == st.proposals
      {
        var p := selected[i];
        if ProposalAlreadyCopied(cur, p, form.budget) {
          StepSkips(st, selected, i, cur, tokens, form, locales, failing);
        } else if p.id in failing {
          StepRaises(st, selected, i, cur, tokens, form, locales, failing);
          return st, Raised;
        } else {
          StepCreates(st, selected, i, cur, tokens, form, locales, failing);
          var token;
          cur, token := CreateProjectFromProposal(cur, p, locales);
          tokens := tokens + [token];
        }
        i := i + 1;
      }
      assert selected[..i] == selected;
      return cur, Ok(tokens);
    }
  }
}
