/** Entities of the proposals-to-budgets import: the proposals it reads, the budget
    projects it creates, the named resource links between the two, and the store that
    holds them. */
module Domain {

  type ProposalId = nat
  type ProjectId = nat
  type ComponentId = nat
  type BudgetId = nat
  type CategoryId = nat
  type ScopeId = nat
  type UserId = nat
  type Locale = string

  /** A translatable field: one text per locale. */
  type LocalizedText = map<Locale, string>

  datatype Option<T> = None | Some(value: T)

  /** The only proposal state that makes a proposal importable. */
  const Accepted: string := "accepted"

  /** The name of the link between a project and a proposal it includes. */
  const IncludedProposals: string := "included_proposals"

  /** A proposal; the import never changes one. Category and scope may be absent. */
  datatype Proposal = Proposal(
    id: ProposalId,
    component: ComponentId,
    state: string,
    title: string,
    body: string,
    category: Option<CategoryId>,
    scope: Option<ScopeId>)

  /** A project of a budget. */
  datatype Project = Project(
    id: ProjectId,
    budget: BudgetId,
    title: LocalizedText,
    description: LocalizedText,
    budgetAmount: int,
    category: Option<CategoryId>,
    scope: Option<ScopeId>)

  /** A named resource link from a project to a proposal. */
  datatype Link = Link(name: string, from: ProjectId, to: ProposalId)

  /** The admin form the command receives; `valid` stands for the outcome of its validation. */
  datatype Form = Form(
    valid: bool,
    originComponent: ComponentId,
    budget: BudgetId,
    defaultBudget: int,
    currentUser: UserId)

  /** Stands for the value `link_resources` returns for one newly created project;
      it is tagged with that project's id and claims nothing else about it. */
  datatype Token = LinkResult(project: ProjectId)

  /** What the command ends with: the `:invalid` broadcast, the `:ok` broadcast with
      its list, or an exception raised inside the transaction. */
  datatype Outcome = Invalid | Ok(tokens: seq<Token>) | Raised

  /** A snapshot of the store. `proposals` is in the store's natural order; `nextId`
      is the id the next created project receives. */
  datatype State = State(
    proposals: seq<Proposal>,
    projects: map<ProjectId, Project>,
    links: set<Link>,
    nextId: ProjectId)

  predicate DistinctIds(ps: seq<Proposal>)
  {
    forall i, j :: 0 <= i < j < |ps| ==> ps[i].id != ps[j].id
  }

  /** What the store guarantees: proposal ids are unique, each project sits under its own
      id, and ids are never handed out twice, so no project or link mentions `nextId` or
      anything above it. */
  predicate Valid(st: State)
  {
    && DistinctIds(st.proposals)
    && (forall k :: k in st.projects ==> k < st.nextId && st.projects[k].id == k)
    && (forall l :: l in st.links ==> l.from < st.nextId)
  }

  /** The persistent store, updated in place by the command. */
  class Store {
    var proposals: seq<Proposal>
    var projects: map<ProjectId, Project>
    var links: set<Link>
    var nextId: ProjectId

    constructor (proposals: seq<Proposal>, projects: map<ProjectId, Project>, links: set<Link>, nextId: ProjectId)
      ensures Snapshot() == State(proposals, projects, links, nextId)
    {
      this.proposals := proposals;
      this.projects := projects;
      this.links := links;
      this.nextId := nextId;
    }

    function Snapshot(): State
      reads this
    {
      State(proposals, projects, links, nextId)
    }
  }
}
