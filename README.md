# Importing accepted proposals into budget projects

A Dafny model of the Decidim admin command `Decidim::Budgets::Admin::ImportProposalsToBudgets`,
with proofs of the properties the command promises.

An administrator picks an origin component, a target budget and a default amount. The command then:

- selects the proposals of the origin component whose state is exactly `"accepted"`;
- skips every proposal that a project of the target budget already includes through an
  `"included_proposals"` link;
- creates one project for each remaining proposal and links it back to that proposal;
- does all of this in one transaction;
- answers `:invalid` when the form is not valid, and otherwise `:ok` with one entry per
  created project.

The model has four modules:

- `Domain` (`domain.dfy`) holds the entities:
  - proposals, projects, named links between them, the form and the outcome;
  - `State`, a value snapshot of the store;
  - the store invariant `Valid`: proposal ids are unique, and project ids come from a counter `nextId`;
  - the class `Store`, whose fields the command updates in place.
- `ImportProposals` (`import.dfy`) holds the command:
  - the pure parts are functions: the selection `Selected`, the guard `ProposalAlreadyCopied`, the `inject` fold of `project_localized` and the attribute map `BuildProject`;
  - the transaction block is specified step by step (`Step`, `RunBatch`), and `Import` is the specification of one whole call;
  - the command object `ImportProposalsToBudgets` has three methods. `Call` checks the form and commits the transaction's result to the `Store`. `CreateProjectsFromAcceptedProposals` runs a `while` loop over the selection, proved against `RunBatch` with loop invariants. `CreateProjectFromProposal` is one creation followed by its link.
- `ImportProofs` (`import_proofs.dfy`) starts from a closed form of the call (`Pending` and `Commit`) and proves these properties of the call as lemmas:
  - the error paths;
  - selection and skipping;
  - field mapping and locale completeness;
  - one link per created project, and nothing else changing;
  - the tokens;
  - idempotence of a second run, and at most one copy per proposal and budget.
- `ImportScenario` (`scenario.dfy`) works through one concrete run and its re-run:
  - proposals A and B are accepted and C is rejected;
  - the request uses two locales and a default amount of 1000.

Some things are parameters:

- The available locales are a parameter `locales`.
- Whether the creation of a project or of its link raises is a parameter `failing`: the set of proposal ids whose creation raises.
- A raise ends the call with outcome `Raised` and leaves the store as it was.

How the outcome is modelled:

- The `:ok` list holds the values `link_resources` returns (line 39), not the projects. They are the opaque tokens `LinkResult(id)`, one per created project.
- An exception raised inside the transaction (lines 33-41) rolls it back and propagates out of `call`. The model gives it a third outcome, `Raised`.
- No uniqueness constraint guards a (proposal, budget) pair; only the query of lines 70-74 does.

`@project` is only used between its creation and its link (lines 37-39, 54). It is therefore a local of `CreateProjectFromProposal`.

## Model

| member | source | states |
|---|---|---|
| ImportProposals.ImportProposalsToBudgets.Call | decidim-budgets/app/commands/decidim/budgets/admin/import_proposals_to_budgets.rb:22-26 | the new store and the outcome are exactly `Import` of the old store: `Invalid` with the store untouched for an invalid form, otherwise the transaction's result |
| ImportProposals.ImportProposalsToBudgets.CreateProjectsFromAcceptedProposals | decidim-budgets/app/commands/decidim/budgets/admin/import_proposals_to_budgets.rb:32-42 | the loop over the selection ends in the state and tokens of `RunBatch` (guard asked against the state built so far), or in the unchanged store with `Raised` when a creation raises; proposals are never changed |
| ImportProposals.ImportProposalsToBudgets.CreateProjectFromProposal | decidim-budgets/app/commands/decidim/budgets/admin/import_proposals_to_budgets.rb:44-60 | one creation: the project with the next id and the form's and proposal's attributes is added, a link from it to the proposal is added, and the token names the new id |
| ImportProposals.SelectedMembers | decidim-budgets/app/commands/decidim/budgets/admin/import_proposals_to_budgets.rb:62-64 | a proposal is selected if and only if it is in the store, belongs to the origin component and has state exactly "accepted" |
| ImportProposals.LocalizeFrom | decidim-budgets/app/commands/decidim/budgets/admin/import_proposals_to_budgets.rb:77-79 | the fold's keys are the start map's keys plus every locale; locales map to the text, other keys keep their start value |
| ImportProposals.ProjectLocalized | decidim-budgets/app/commands/decidim/budgets/admin/import_proposals_to_budgets.rb:76-80 | the key set is exactly the set of available locales and every value is the given text |
| ImportProposals.StepSkips | decidim-budgets/app/commands/decidim/budgets/admin/import_proposals_to_budgets.rb:35 | a proposal already copied into the budget leaves the batch's state and tokens unchanged |
| ImportProposals.StepCreates | decidim-budgets/app/commands/decidim/budgets/admin/import_proposals_to_budgets.rb:37-39 | a proposal not yet copied gets its project and link, and its token is appended |
| ImportProposals.StepRaises | decidim-budgets/app/commands/decidim/budgets/admin/import_proposals_to_budgets.rb:33-41 | a raising creation makes the whole batch fail |
| ImportProposals.FailurePersists | decidim-budgets/app/commands/decidim/budgets/admin/import_proposals_to_budgets.rb:33-41 | once a prefix of the batch has raised, the whole batch has raised |
| ImportProofs.Pending | decidim-budgets/app/commands/decidim/budgets/admin/import_proposals_to_budgets.rb:35 | a proposal is pending if and only if it is in the list and the guard, asked against the old store, does not report it copied |
| ImportProofs.CopiedUnaffected | decidim-budgets/app/commands/decidim/budgets/admin/import_proposals_to_budgets.rb:70-74 | projects created earlier in the batch for other proposal ids do not change the guard's answer for a proposal |
| ImportProofs.BatchClosedForm | decidim-budgets/app/commands/decidim/budgets/admin/import_proposals_to_budgets.rb:33-41 | the step-by-step batch equals the closed form: it raises if and only if a pending proposal fails to be created, and otherwise commits exactly the pending proposals in order with one token each |
| ImportProofs.ImportClosedForm | decidim-budgets/app/commands/decidim/budgets/admin/import_proposals_to_budgets.rb:22-42 | the call's result in all three cases: an invalid form gives `Invalid` with the store unchanged, a raise gives `Raised` with the store unchanged, and otherwise the pending proposals are committed with their tokens |
| ImportProofs.ImportPreservesValid | decidim-budgets/app/commands/decidim/budgets/admin/import_proposals_to_budgets.rb:32-42 | the store invariant holds after every call |
| ImportProofs.ImportNothingElseChanges | decidim-budgets/app/commands/decidim/budgets/admin/import_proposals_to_budgets.rb:34-39 | proposals are unchanged, every existing project keeps its key and attributes, and every existing link stays |
| ImportProofs.ImportFieldMapping | decidim-budgets/app/commands/decidim/budgets/admin/import_proposals_to_budgets.rb:45-52 | every created project comes from an accepted, not yet copied proposal of the origin component. It has the form's budget and default amount, that proposal's category and scope, and its title and body localized. It is linked to that proposal |
| ImportProofs.ImportLocaleCompleteness | decidim-budgets/app/commands/decidim/budgets/admin/import_proposals_to_budgets.rb:47-48 | every created project's title and description have exactly the available locales as keys, each holding one proposal's title, respectively body |
| ImportProofs.ImportSkips | decidim-budgets/app/commands/decidim/budgets/admin/import_proposals_to_budgets.rb:70-74 | a proposal outside the origin component, not in state "accepted", or already copied into the budget gets no new link |
| ImportProofs.ImportNewLinks | decidim-budgets/app/commands/decidim/budgets/admin/import_proposals_to_budgets.rb:39 | every link a call adds is an "included_proposals" link from a project the call created |
| ImportProofs.ImportLinksEachProjectOnce | decidim-budgets/app/commands/decidim/budgets/admin/import_proposals_to_budgets.rb:37-39 | no two different links start at the same created project |
| ImportProofs.ImportTokens | decidim-budgets/app/commands/decidim/budgets/admin/import_proposals_to_budgets.rb:34-40 | the `:ok` list has one token per created project: the created ids are exactly the next `|tokens|` ids, and the j-th token names the j-th of them |
| ImportProofs.ImportCopiesEveryEligible | decidim-budgets/app/commands/decidim/budgets/admin/import_proposals_to_budgets.rb:34-40 | after a successful run, a project of the budget includes every accepted proposal of the origin component |
| ImportProofs.RerunIsNoOp | decidim-budgets/app/commands/decidim/budgets/admin/import_proposals_to_budgets.rb:32-42 | right after a successful run, the same form (any locales, any failures) gives `Ok([])` and leaves the store unchanged |
| ImportProofs.ImportKeepsSingleCopy | decidim-budgets/app/commands/decidim/budgets/admin/import_proposals_to_budgets.rb:70-74 | if at most one project of a budget included a proposal before a call, this still holds afterwards |
| ImportProofs.ImportKeepsAtMostOneCopy | decidim-budgets/app/commands/decidim/budgets/admin/import_proposals_to_budgets.rb:70-74 | "at most one including project per accepted proposal and budget" is an invariant of the call |
| ImportScenario.FirstRun | decidim-budgets/app/commands/decidim/budgets/admin/import_proposals_to_budgets.rb:22-80 | the concrete run: A and B get projects 10 and 11 with budget 5, amount 1000, their category and scope and both locales, plus one link each; C gets nothing; the list holds two tokens |
| ImportScenario.SecondRun | decidim-budgets/app/commands/decidim/budgets/admin/import_proposals_to_budgets.rb:22-42 | re-running the same request on the resulting store gives `Ok([])` and the same store |

## Left out

- ActiveRecord, the `transaction` block and the database. The transaction is modelled as a loop over a copy of the store. The copy is written back once, at the end. Isolation is not modelled.
- Concurrency. Two simultaneous calls can both pass the guard before either commits. That race belongs to the database, not to this sequential logic.
- Rectify's `broadcast`. It is modelled by the datatype `Outcome`.
- `Decidim.traceability.create!`: audit logging, attribution to `form.current_user` and `visibility: "all"` (lines 54-59). Only the creation of the project is modelled. `current_user` is carried in `Form` but is unused.
- Form validation. `@form.valid?` is the boolean `Form.valid`.
- The internals of `link_resources` and `linked_resources`, which are not part of this model. `link_resources` is modelled as adding one link to the link set, and `linked_resources` as a query of that set. Only links from projects to proposals are modelled.
- `with_indifferent_access`: there is a single key type, `string`.
- `Decidim.available_locales` is the parameter `locales`.
- Id allocation by the database is the counter `nextId`. The counter is restored on a rollback and ids are consecutive, which a database sequence does not guarantee.
- Exceptions raised by `create!` or by the link call are modelled as the parameter `failing`.
- ImportProposals.ImportProposalsToBudgets.Call: does not state what the command object's `@project` holds after the call, because `@project` is modelled as a local of one creation step.
- ImportProposals.ImportProposalsToBudgets.CreateProjectFromProposal: does not state the real value that `link_resources` returns. Its token only names the new project. A nil return, which `compact` would drop, is not modelled.
