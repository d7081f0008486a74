# PWMS: a verified model

A Dafny model of the parts of the Parliamentary Workflow Management System that keep redundant
records in step, infer structure from raw rows, or guard a shared resource, with proofs of what they
promise over every input, every run or every interleaving.

`dafny verify dfyconfig.toml` checks the whole project.

| file | what it models |
|---|---|
| `Hierarchy.dfy` | the workflow table: parent pointers, stored depth and root, cycle check, recursive descendant query, path reader |
| `Permissions.dfy`, `PermissionLaws.dfy` | the role-based check, its legacy fall-back, and the transitions offered to a user |
| `Engine.dfy`, `EngineLaws.dfy` | one workflow's life: access grants, refer and recall, transitions and their log, over every run |
| `OrgTree.dfy`, `OrgTreeLaws.dfy`, `OrgTreeOrder.dfy`, `OrgTreeForest.dfy`, `OrgTreeCompare.dfy` | the unit tree inferred from supervisor chains, and its comparison with the stored tree |
| `Acronyms.dfy`, `AcronymLaws.dfy` | restoring the capitals of acronyms in a unit's name |
| `Sync.dfy`, `SyncLaws.dfy`, `SyncHouses.dfy`, `SyncPlaces.dfy` | the membership sync: caches, on-demand groups and roles, membership upsert, dry run |
| `Throttle.dfy` | the rate limiter's add / incr / re-add / incr protocol under arbitrary interleaving |
| `Tokens.dfy`, `AccessTokens.dfy` | rotating refresh tokens, and access tokens with whole-second stamps |
| `Events.dfy` | event statuses that follow the clock, and attendance rows |
| `Paging.dfy` | offset pages linked by next and previous |
| `Common.dfy`, `Sorting.dfy` | optional values, repeat-free sequences, sorting and name order |

Where the source changes state, a class holds its fields, each method is proved equal to a step on a
snapshot of those fields, and the laws are proved about runs of such steps. The concurrent protocol
is a state machine over the cache's atomic operations; the hit routine, with arbitrary events of other
workers between its operations, is proved to be that machine's steps.

## Where the plain promise fails

For each of these the exact condition under which the promise holds is proved, and a failing input is
given as a lemma.

- Moving an inner workflow leaves its descendants' stored depth and root behind. They stay right
  exactly when the moved row has no child or its own stamp does not change
  (`SaveKeepsAccurateExactly`, for runs `RunsStayAccurateExactly`); a root with one child moved under
  another root fails (`InnerMoveStrandsChild`); saving the subtree again, parents first, repairs it
  (`MovedSubtreeHeals`).
- A non-primary grant never removes view, edit or delete (`GrantNeverRemoves`), but the first access
  row can switch off the owning group's own transitions (`GrantKeepsTransitionsExactly`,
  `FirstGrantTakesTransitions`).
- A non-primary grant to the group that holds the primary row leaves `primary_group` set without a
  primary row, and only that does (`GrantLosesPrimaryRowExactly`, `SecondGrantDropsPrimaryRow`).
- The inferred tree depends on the order of the rows exactly when some employee id has two units
  (`OrderIsImmaterialExactly`, `LastRowTakesAll`).
- Inferred parents can form a cycle (`ParentsMayFormACycle`). Where the reporting lines between units
  have no cycle the parents form a forest; where they have one, some people with exactly these lines
  give a cycle of parents (`ParentsFormForestExactly`).
- Comparing the inferred tree with itself is all matches exactly when no parent has the
  administration's name and units whose names differ only by case share a parent
  (`FeedbackMatchesExactly`, `UnderAdministrationDiffers`, `CaseTwinsDiffer`).
- A worker that outsleeps its time window opens a second lifetime under the old key
  (`LateWorkerOpensSecondLife`), and a hit whose key expires twice is let through without a count
  (`TwiceExpiredPassesUncounted`). In any run, a key keeps to every limit exactly when each of its
  requests was counted and all in one lifetime (`KeyKeepsEveryLimitExactly`); staying inside the window
  is enough for that (`WindowAllowsAtMostLimit`).
- The sync's group cache is keyed by bare name, so a party resolved under one house is reused under
  the other (`PartyIsSharedAcrossHouses`, `EmptyTablesShareParty`). A row's party ends under its own
  house exactly when the first row that brought the name in was of the same house, or the name was
  found as a group already sitting there (`PartyIsUnderItsHouseExactly`).
- A completed event saved into another group gets no attendance rows. A full register stays full
  exactly when no such save meets a member without a row (`StepKeepsFilledExactly`, for runs
  `RunsStayFilledExactly`, failing in `MovedEventStrandsMembers`).
- Going to the previous page and forward again returns to the start exactly when the page begins at
  least one limit in and inside the sequence (`BackAndForthExactly`, `BackAndForthMissesOffset`).

The opening text of `src/pwms/api/tokens.py` gives refresh tokens an hour, while the code's default
is 1440 minutes; the model takes the life as a parameter.

## Model

| member | source | states |
|---|---|---|
| `Hierarchy.SaveKeepsAcyclic` | src/old/models.py:869-921 | a save whose parent is neither the row nor below it keeps every parent chain finite |
| `Hierarchy.CyclicParentBreaksTree` | src/old/models.py:882-894 | any parent the check refuses would put the row below itself, so refusing exactly these is necessary |
| `Hierarchy.CreateKeepsAcyclic` | src/old/models.py:896-921 | a new row keeps the table acyclic and nobody else's true depth or top changes |
| `Hierarchy.CreateKeepsAccurate` | src/old/models.py:903-917 | a new row's stamp is its true depth and root, and all others stay right |
| `Hierarchy.SaveIsAccurateOutside` | src/old/models.py:903-917 | after an accepted save the row and everything outside its subtree carry true depth and root |
| `Hierarchy.SaveKeepsAccurateExactly` | src/old/models.py:896-921 | stored depth and root stay right for all rows exactly when the moved row has no child or its own stamp is unchanged |
| `Hierarchy.KeepingTheParentIsIdle` | src/old/models.py:896-921 | in an accurate table a save under the same parent is accepted and changes nothing |
| `Hierarchy.ResavingHeals` | src/old/models.py:903-917 | saving rows again, each after its parent, makes every one of them accurate |
| `Hierarchy.MovedSubtreeHeals` | src/old/models.py:896-921 | after moving an inner row, resaving all rows below it parents-first restores every depth and root |
| `Hierarchy.NeverBelowItself` | src/old/models.py:869-880 | no row of an acyclic table is its own ancestor |
| `Hierarchy.RunsNeverCycle` | src/old/models.py:869-945 | after any run of creates and saves from an empty table no workflow is its own ancestor |
| `Hierarchy.RunsStayAccurateExactly` | src/old/models.py:896-921 | stored depth and root equal the true ones at every moment of a run exactly when each of its saves moves a childless row or leaves the row's own stamp as it was |
| `Hierarchy.InnerMoveStrandsChild` | src/old/models.py:896-921 | a root with one child moved under another root leaves the child with a wrong depth and root |
| `Hierarchy.WorkflowTable.GetAllDescendants` | src/old/models.py:926-945 | the level-by-level query terminates and returns exactly the rows strictly below, each once, in table order |
| `Hierarchy.WorkflowTable.ChildrenOf` | src/old/models.py:935-940 | one join yields exactly the rows whose parent is in the previous level, each once |
| `Hierarchy.WorkflowTable.WouldCreateCircularReference` | src/old/models.py:882-894 | true exactly when the proposed parent is the row or lies below it |
| `Hierarchy.WorkflowTable.Create` | src/old/models.py:896-921 | never refused; appends the stamped row; acyclicity kept |
| `Hierarchy.WorkflowTable.Save` | src/old/models.py:896-921 | refused exactly for a cyclic parent; otherwise restamps the row, or leaves it on a partial save |
| `Hierarchy.WorkflowTable.GetWorkflowHierarchyPath` | src/old/models.py:947-960 | returns the tail of the true chain that the stored depth allows, ending in the row; the whole chain from the root when the depth is right |
| `Hierarchy.ChainHolds` | src/old/models.py:947-960 | position m of a chain is the ancestor that many steps from its top end |
| `Permissions.CheckRbacPermission` | src/old/models.py:1213-1307 | the nested loops with continue and early return decide one existential over (access row, membership) pairs, an override deciding alone; flag by flag in the laws below |
| `Permissions.RbacIgnoresOrder` | src/old/models.py:1236-1242 | the answer does not depend on the order of access rows or memberships |
| `Permissions.OverrideHidesConfiguration` | src/old/models.py:1247-1267 | where every matching role is overridden, state permissions, transition roles and role flags are not consulted |
| `Permissions.CanUser` | src/old/models.py:1309-1386 | view, edit and delete equal the ruling: superuser, role-based check, error on a missing owning group, referred groups (not for delete), state permissions; flag by flag in the laws below |
| `PermissionLaws.StateFlagsDecide` | src/old/models.py:1309-1386 | without access rows View, Edit and Delete are allowed exactly when a state permission listing one of the user's roles has canView, canEdit or canDelete; a referred group's member may view and edit in any case |
| `PermissionLaws.OutsideTheRules` | src/old/models.py:1226-1230 | the inactive are denied, superusers and (with access rows) owners allowed, and without an owning group the check raises |
| `PermissionLaws.OverrideFlagsDecide` | src/old/models.py:1247-1267 | for a matched override row each permission is its own flag, nothing is granted outside its states, and permissions are never managed by it |
| `PermissionLaws.FirstForExactly` | src/old/models.py:1271-1273 | the state permission consulted is the first that lists the role; none exactly when none lists it |
| `PermissionLaws.RoleFlagsDecide` | src/old/models.py:1269-1305 | without an override the first state permission listing the role decides flag by flag; where none does, only a transition the role is allowed on is granted; managing is the role's own flag |
| `PermissionLaws.FlagTouchesOwnPermission` | src/old/models.py:1247-1305 | configurations that differ in one permission's flag agree on every other permission |
| `Permissions.GetAvailableTransitions` | src/old/models.py:1141-1193 | offers exactly the transitions defined from here, open to a role held in a counting group, unless an owner is blocked by a referral |
| `Permissions.ReferralBlocksOnlyOwner` | src/old/models.py:1179-1187 | a new active referral takes a transition from a user exactly when the user is the owner and had it |
| `Engine.GrantKeepsAccessSound` | src/old/models.py:1392-1434 | a grant keeps one row per group and any primary row's group equal to primary_group; a primary grant leaves a primary row |
| `Engine.AtMostOnePrimary` | src/old/models.py:1071-1074 | sound access rows contain at most one primary row |
| `Engine.GrantLosesPrimaryRowExactly` | src/old/models.py:1413-1421 | a primary row survives a grant unless it is a non-primary grant to that very group; primary_group stays set either way |
| `Engine.SecondGrantDropsPrimaryRow` | src/old/models.py:1392-1434 | a primary grant followed by a non-primary one to the same group ends with primary_group set and no primary row |
| `Engine.GrantNeverRemoves` | src/old/models.py:1309-1434 | a non-primary grant never takes view, edit or delete from anyone |
| `Engine.GrantKeepsTransitionsExactly` | src/old/models.py:1141-1193 | a non-primary grant keeps all transitions of all users under every configuration exactly when access rows existed or the primary group is the one granted or is referred to |
| `Engine.FirstGrantTakesTransitions` | src/old/models.py:1141-1193 | on a new workflow a grant to another group takes the offered transition from the owning group's member |
| `Engine.RecallOneSound` | src/old/models.py:1709-1726 | recalling one active referral removes exactly its group from the groups with an active referral |
| `Engine.NewReferralSound` | src/old/views.py:1550-1582 | a referral to a group without an active one keeps one active referral per group and adds that group |
| `Engine.StepKeepsSound` | src/old/views.py:1531-1778 | refer, recall, transition and grants keep referred_to_groups equal to the groups with an active referral, one per group, and the access rows sound |
| `Engine.StepKeepsOwnerOut` | src/old/views.py:1722-1748 | no step ever logs an owner's move stamped strictly inside the active span of a referral |
| `Engine.OwnerMovesOneMore` | src/old/views.py:1722-1748 | whatever the time stamps, an owner's request that adds to the log finds no referral active |
| `Engine.StepReplays` | src/old/views.py:1738-1769 | each step's log entry joins the previous state to the new one |
| `Engine.RunsStaySound` | src/old/views.py:1531-1778 | over every run from creation: referred groups match active referrals, access rows are sound, the log replays to the current state, and each time the owner moved the workflow no referral was active |
| `Engine.EveryEntryExplained` | src/old/views.py:1722-1748 | every log entry stems from a request whose transition was defined and open to its user when it was made |
| `Engine.ReferThenRecallRestores` | src/old/views.py:1531-1651 | refer then recall puts the set of referred groups back and keeps the history row |
| `Engine.TerminalMoveClearsReferrals` | src/old/views.py:1771-1778 | a move into a terminal state leaves no group referred, and a later referral stays possible where that state allows referrals |
| `Engine.PickInitialState` | src/old/views.py:602-618 | the first state by (order, id) among those marked initial, else among all; none exactly when the type has no state |
| `Engine.WorkflowObject.SyncReferredGroups` | src/old/models.py:1709-1726 | adds an active referral's group; removes a recalled one's unless another active referral names it |
| `Engine.WorkflowObject.Refer` | src/old/views.py:1526-1582 | does the intended step, and answers success exactly when edit is allowed, the state allows referrals, the group is new and the deadline parses |
| `Engine.WorkflowObject.Recall` | src/old/views.py:1627-1651 | does the intended step, and answers success exactly when edit is allowed and the group has an active referral |
| `Engine.WorkflowObject.ExecuteTransition` | src/old/views.py:1717-1778 | does the intended step, whose gate, log entry and recalls are pinned field by field below, and answers success exactly when the transition is offered and a required comment is given |
| `Engine.WorkflowObject.RecallEverything` | src/old/views.py:1771-1778 | the loop of saves recalls every active referral and empties the referred groups |
| `Engine.WorkflowObject.AddGroupAccess` | src/old/models.py:1392-1434 | get-or-create, update and primary normalisation have exactly the grant's effect |
| `Engine.WorkflowObject.SetPrimaryGroup` | src/old/models.py:1065-1113 | the separately written primary setter ends exactly where a primary grant does; no group is refused |
| `Engine.ClearThenUpdate` | src/old/models.py:1090-1107 | clearing other primary flags before or after updating the granted row comes to the same |
| `EngineLaws.ReferChangesExactly` | src/old/views.py:1526-1582 | a referral request changes the workflow exactly for an editor, in a referable state, with a readable deadline, to a group without an active referral; and then only adds one row and its group |
| `EngineLaws.RecallChangesExactly` | src/old/views.py:1627-1651 | a recall changes the workflow exactly for an editor and a group with an active referral |
| `EngineLaws.ExecuteChangesExactly` | src/old/views.py:1717-1769 | a move is logged exactly when the transition leaves the current state for this type, a counted group's member holds an allowed role, no referral blocks an owner, and a required comment is there |
| `EngineLaws.PlainMoveKeepsReferrals` | src/old/views.py:1771-1772 | a move into a state that is not terminal changes state and log only |
| `EngineLaws.GrantChangesAccessOnly` | src/old/models.py:1065-1113 | grants touch access rows and primary group only, and leave a row of the group flagged as asked |
| `EngineLaws.GrantedRows` | src/old/models.py:1392-1434 | after a grant the group's row has the flag, the grantor and the notes given, keeps what was not given, and every other row stays but for its flag |
| `EngineLaws.StepEndsReferralExactly` | src/old/views.py:1627-1778 | one request recalls an active referral exactly when it is a permitted recall of its group or a permitted move into a terminal state |
| `EngineLaws.ReferralFollowed` | src/old/views.py:1627-1778 | over every run an active referral stays as it is until such a request, and is then recalled for good by that request's user at its time |
| `EngineLaws.EveryReferralExplained` | src/old/views.py:1526-1778 | over every run from creation each referral row was made by a permitted referral with its group, user, time and deadline, and is recalled exactly as the later requests say |
| `OrgTree.InferUnitParents` | src/pwms/membership/org_hierarchy.py:183-234 | the dictionary-filling loops compute the declared inference for every unit, keys in first-seen order |
| `OrgTree.CountVotes` | src/pwms/membership/org_hierarchy.py:205-233 | one unit's vote loop, with its skips, counts exactly the ballots of the members who report out, and picks the winner |
| `OrgTree.CountingInfers` | src/pwms/membership/org_hierarchy.py:206-233 | filling the dictionaries ballot by ballot gives the inference declared by filtering the ballots of each candidate |
| `OrgTree.CountSpans` | src/pwms/membership/org_hierarchy.py:196-196 | the counter holds each supervisor's number of rows |
| `OrgTree.GroupMembers` | src/pwms/membership/org_hierarchy.py:198-202 | the grouping loop lists each unit's members, units in order of first member |
| `OrgTreeLaws.SpanCounts` | src/pwms/membership/org_hierarchy.py:196-196 | a span of control is the number of rows naming the supervisor |
| `OrgTreeLaws.VotesCount` | src/pwms/membership/org_hierarchy.py:209-218 | the ballots for a candidate are as many as the rows voting for it |
| `OrgTreeLaws.VotesAndSpansAreDeclared` | src/pwms/membership/org_hierarchy.py:209-218 | votes[c] is the number of members whose supervisor sits in c, another unit; spans[c] is the largest span among those supervisors; c is a key exactly when someone votes for it |
| `OrgTreeLaws.VotingRowsOnFields` | src/pwms/membership/org_hierarchy.py:209-215 | a row votes for c on behalf of u exactly when its person sits in u, its supervisor in c, and both are named and different |
| `OrgTreeLaws.ReportersAreVoters` | src/pwms/membership/org_hierarchy.py:218-231 | reports[c] names exactly the employees of the rows that vote for c |
| `OrgTreeLaws.WinnerIsUniqueLeast` | src/pwms/membership/org_hierarchy.py:220-224 | the parent is the unique least candidate by (-votes, -span, name); none exactly when there is no candidate |
| `OrgTreeLaws.WinnerOnFields` | src/pwms/membership/org_hierarchy.py:220-224 | the parent has more votes than any other candidate, or as many and a larger span, or as many of both and the name that comes first |
| `Sorting.NameLeqExactly` | src/pwms/membership/org_hierarchy.py:222-222 | names compare by the first character at which they differ, a prefix first |
| `OrgTreeLaws.ParentsAreClosed` | src/pwms/membership/org_hierarchy.py:198-233 | a parent is another unit with an inference of its own; each candidate has as many reporters as votes, at least one |
| `OrgTreeLaws.MembersAddUp` | src/pwms/membership/org_hierarchy.py:198-229 | member counts add up to the rows placed in a unit |
| `OrgTreeLaws.UnitsInOrderOfAppearance` | src/pwms/membership/org_hierarchy.py:198-205 | the units come in the order of their first members |
| `OrgTreeLaws.MostVotedWins` | src/pwms/membership/org_hierarchy.py:220-224 | a candidate with more voting rows than any other is the parent |
| `OrgTreeLaws.ParentsMayFormACycle` | src/pwms/membership/org_hierarchy.py:183-234 | two people who supervise each other across two units make each unit the other's parent |
| `OrgTreeForest.ParentsAreReportingPairs` | src/pwms/membership/org_hierarchy.py:209-224 | every inferred parent is a unit that some member reports into |
| `OrgTreeForest.AcyclicReportsGiveForest` | src/pwms/membership/org_hierarchy.py:183-234 | where the reporting lines between units have no cycle, no chain of parents meets a unit twice, and each ends within as many units as there are |
| `OrgTreeForest.CycleCanBeInferred` | src/pwms/membership/org_hierarchy.py:183-234 | any cycle of reporting lines is a cycle of parents for some people with distinct ids and exactly these lines |
| `OrgTreeForest.ParentsFormForestExactly` | src/pwms/membership/org_hierarchy.py:183-234 | for a set of reporting lines, the parents have no cycle whoever the people are exactly when the lines have none |
| `OrgTreeOrder.OrderIsImmaterial` | src/pwms/membership/org_hierarchy.py:183-234 | reordering the rows changes no unit's members, votes, spans, parent or set of reporters, provided no id has two units |
| `OrgTreeOrder.OrderIsImmaterialExactly` | src/pwms/membership/org_hierarchy.py:191-194 | every reordering leaves the findings the same exactly when no employee id has two units |
| `OrgTreeOrder.ConflictChangesMembers` | src/pwms/membership/org_hierarchy.py:191-202 | whichever of two conflicting rows is last takes its id's rows along, so member counts differ |
| `OrgTreeOrder.LastRowTakesAll` | src/pwms/membership/org_hierarchy.py:191-202 | two rows of one id in two units: swapping them swaps which unit exists |
| `OrgTreeCompare.TiedExactly` | src/pwms/membership/org_hierarchy.py:167-175 | tied holds exactly when another candidate has the winner's votes and span |
| `OrgTreeCompare.LowConfidenceExactly` | src/pwms/membership/org_hierarchy.py:177-180 | low_confidence holds exactly when the winner has one vote |
| `OrgTreeCompare.WinnerHasMostVotes` | src/pwms/membership/org_hierarchy.py:220-222 | the winner has the most votes of all candidates |
| `OrgTreeCompare.ParentMapExactly` | src/pwms/membership/org_hierarchy.py:237-251 | the map holds exactly the inferred edges whose winner has enough votes |
| `OrgTreeCompare.ParentMapShrinks` | src/pwms/membership/org_hierarchy.py:237-251 | asking for more votes only removes edges and never redirects one |
| `OrgTreeCompare.CompareWithStored` | src/pwms/membership/org_hierarchy.py:265-306 | one row per unit in scope, in name order, judged against the last stored entry equal to it but for case |
| `OrgTreeCompare.RowOnFields` | src/pwms/membership/org_hierarchy.py:282-305 | a unit is missing exactly when no stored name folds to its own; otherwise the last such entry's parent, the administration taken for none, matches or differs |
| `OrgTreeCompare.ScopeOnFields` | src/pwms/membership/org_hierarchy.py:286-288 | a prefix keeps the units that begin with it up to folding; none and the empty one keep all |
| `OrgTreeCompare.FeedbackMatchesExactly` | src/pwms/membership/org_hierarchy.py:282-305 | comparing the inference with itself matches everywhere exactly when no parent has the administration's name and case twins share a parent |
| `OrgTreeCompare.UnderAdministrationDiffers` | src/pwms/membership/org_hierarchy.py:297-300 | rows whose inferred parent is the administration do not match themselves |
| `OrgTreeCompare.CaseTwinsDiffer` | src/pwms/membership/org_hierarchy.py:282-290 | nor do rows of two units whose names differ only by case, one with a parent and one without |
| `Acronyms.RestoreAcronymCase` | src/pwms/membership/org_hierarchy.py:106-129 | the loop computes the rewritten words joined by single spaces; which words change, and to what, is in the laws below |
| `Acronyms.WordShape` | src/pwms/membership/org_hierarchy.py:119-127 | a word is leading marks, core and trailing marks, and find locates the core behind the leading marks |
| `Acronyms.RewrittenParts` | src/pwms/membership/org_hierarchy.py:118-128 | a rewritten word keeps its marks and replaces the core by a table entry equal to it but for case |
| `Acronyms.RestoreWordKeeps` | src/pwms/membership/org_hierarchy.py:118-128 | rewriting a word changes letter case only, and only where the core is a known acronym |
| `Acronyms.RestoreWordIdempotent` | src/pwms/membership/org_hierarchy.py:118-128 | rewriting a word twice is rewriting it once |
| `Acronyms.SplitUndoesJoin` | src/pwms/membership/org_hierarchy.py:116-129 | splitting joined words gives the words back |
| `Acronyms.RestoredWords` | src/pwms/membership/org_hierarchy.py:116-129 | splitting the result gives exactly the rewritten words of the input |
| `Acronyms.RestoredIdempotent` | src/pwms/membership/org_hierarchy.py:106-129 | restoring a name twice is restoring it once |
| `Acronyms.RestoredKeepsCharacters` | src/pwms/membership/org_hierarchy.py:106-129 | white space aside, every character is kept but for its case |
| `Acronyms.AcronymsArePlain` | src/pwms/membership/org_hierarchy.py:36-99 | every acronym shipped is a non-empty word of letters and digits, which the laws above ask of a table |
| `AcronymLaws.VariantIsRestored` | src/pwms/membership/org_hierarchy.py:103-128 | any spelling of a known acronym, letters 32 codes apart or the same, in any wrapping of punctuation, comes out as the acronym in that wrapping |
| `AcronymLaws.OthersAreLeft` | src/pwms/membership/org_hierarchy.py:119-123 | a word whose core spells no known acronym is left as it is |
| `AcronymLaws.AcronymsHaveNoTwins` | src/pwms/membership/org_hierarchy.py:36-103 | no two shipped acronyms differ only by case, so the lower-cased table loses none |
| `AcronymLaws.NameIsRestored` | src/pwms/membership/org_hierarchy.py:106-129 | in any name each word that spells a shipped acronym comes out as that acronym, every other word as it went in, in number and order |
| `AcronymLaws.TitleCaseIsUndone` | src/pwms/membership/org_hierarchy.py:109-114 | "Cbs: Cae" comes out as "CBS: CAE" |
| `AcronymLaws.MarksExactly` | src/pwms/membership/org_hierarchy.py:119-119 | the punctuation stripped is the ten characters listed, and no letter, digit or space |
| `AcronymLaws.SpacesExactly` | src/pwms/membership/org_hierarchy.py:116-116 | the white space split at is the set of characters Python splits at |
| `Throttle.CacheServer.Add` | src/pwms/api/throttling.py:43-44 | succeeds exactly when the key is not live, and starts a new lifetime at one |
| `Throttle.CacheServer.Incr` | src/pwms/api/throttling.py:45-46 | raises exactly when the key is not live; otherwise adds one and keeps the expiry |
| `Throttle.CacheServer.Hit` | src/pwms/api/throttling.py:35-55 | whatever happens between its operations, the routine is the state machine's steps and returns the count of the outcome it recorded |
| `Throttle.CacheServer.Increment` | src/pwms/api/throttling.py:45-52 | returns the count after its increment, or hands an expired key to the handler |
| `Throttle.CacheServer.StartOver` | src/pwms/api/throttling.py:47-52 | the expiry handler adds anew, or increments the worker's that won, or fails open |
| `Throttle.CacheServer.AllowRequest` | src/pwms/api/throttling.py:70-85 | no caller or no limit allows unmetered; otherwise, with other events in all four gaps, the machine's steps, and allowed when uncounted or within the limit |
| `Throttle.CacheServer.ReadClock` | src/pwms/api/throttling.py:78-84 | the key names the window of the moment the clock was read, whatever happens before the first cache operation |
| `Throttle.NextIsSound` | src/pwms/api/throttling.py:43-52 | every atomic step keeps each lifetime's counts consecutive and equal in number to the stored count |
| `Throttle.EveryRunIsSound` | src/pwms/api/throttling.py:35-55 | in every interleaving, expiry and eviction included, each lifetime hands out 1, 2, 3, ... without repeats |
| `Throttle.LifetimeAllowsExactly` | src/pwms/api/throttling.py:35-85 | of the n requests counted in one lifetime exactly min(n, limit) are allowed |
| `Throttle.PromptStepKeepsOneLife` | src/pwms/api/throttling.py:43-43 | when operations stay in their time window, the extra second gives each key a single lifetime and nobody meets an expired key |
| `Throttle.RunsKeepExpiry` | src/pwms/api/throttling.py:43-46 | over every run a cached key expires one second more than a window after the request counted as one in its lifetime: no increment moves it |
| `Throttle.WindowAllowsAtMostLimit` | src/pwms/api/throttling.py:78-85 | a prompt run allows a caller at most limit requests per window |
| `Throttle.SlidingWindowAllowsTwice` | src/pwms/api/throttling.py:78-85 | and at most twice the limit in any stretch of one window's length |
| `Throttle.NearbyBuckets` | src/pwms/api/throttling.py:82-82 | less than one window later is the same or the next bucket |
| `Throttle.LateWorkerOpensSecondLife` | src/pwms/api/throttling.py:42-52 | a concrete family of runs where a late worker passes the limit under the old key |
| `Throttle.LifeBeginsUnderItsKey` | src/pwms/api/throttling.py:43-52 | every counted request's lifetime began with a request under the same key that was counted as one |
| `Throttle.TwiceExpiredPassesUncounted` | src/pwms/api/throttling.py:45-55 | a family of runs where a key expires twice under one hit, which is let through uncounted; three requests pass a limit of one |
| `Throttle.KeyKeepsEveryLimitExactly` | src/pwms/api/throttling.py:35-85 | in every run a key keeps to every limit exactly when each of its requests was counted and all of them in one lifetime |
| `Tokens.TokenStore.IssueRefreshToken` | src/pwms/api/tokens.py:100-108 | appends one live row with the given life and keeps tokens unique |
| `Tokens.TokenStore.ExchangeCredentials` | src/pwms/api/api.py:228-246 | mints a token of a new lineage exactly for an active client |
| `Tokens.TokenStore.RedeemRefreshToken` | src/pwms/api/tokens.py:111-127 | answers exactly when some row has this token, is unrevoked, expires later than now and belongs to an active client; revokes it first and mints its successor for the same client |
| `Tokens.RedeemableExactly` | src/pwms/api/models.py:177-183 | acceptance on the row's fields: unrevoked, now before the expiry, client active |
| `Tokens.MintedTokenLivesExactly` | src/pwms/api/tokens.py:100-135 | after any later run a token minted at t is accepted exactly while the clock is before t + ttl, its client is active, and nothing has redeemed or revoked it |
| `Tokens.InactiveClientIsRefused` | src/pwms/api/models.py:181-183 | a client switched off has its token refused while it stays off; switched on again, the token is accepted exactly if unexpired and unconsumed |
| `Tokens.ExchangesAreCounted` | src/pwms/api/tokens.py:100-108 | the exchanges counted are the answered ones: an active client and a fresh token |
| `Tokens.TokenStore.RevokeRefreshToken` | src/pwms/api/tokens.py:130-135 | revokes the row if it is live, else does nothing |
| `Tokens.StepKeepsSound` | src/pwms/api/tokens.py:100-135 | every action keeps tokens unique and at most one unrevoked token per lineage |
| `Tokens.LiveTokensNeverOutnumberExchanges` | src/pwms/api/tokens.py:100-135 | over every run the unrevoked tokens never outnumber the credential exchanges |
| `Tokens.RedeemedOnceOnly` | src/pwms/api/tokens.py:111-127 | a redeemed token is refused after any later run |
| `Tokens.RedeemRotates` | src/pwms/api/tokens.py:111-127 | the replacement is redeemable, of the same lineage and client, and the number of live tokens is unchanged |
| `Tokens.RevokeIsIdempotent` | src/pwms/api/tokens.py:130-135 | revoking twice is revoking once, and a revoked token is not accepted |
| `AccessTokens.ApiClient.Save` | src/pwms/api/models.py:130-145 | refuses exactly unknown scopes; otherwise stores the same scopes in canonical order without repeats |
| `AccessTokens.EnabledIsCanonical` | src/pwms/api/models.py:101-105 | enabled scopes are duplicate-free, stable, and exactly the known ones among those configured |
| `AccessTokens.PickKeepsOrder` | src/pwms/api/models.py:101-105 | the selection keeps the canonical order |
| `AccessTokens.AcceptedExactly` | src/pwms/api/tokens.py:48-97 | accepted exactly while the whole seconds since issue are below the life and the client is active; strictly before issue plus life, and always until one second short of it |
| `AccessTokens.AcceptedUnderChangedLife` | src/pwms/api/tokens.py:78-91 | where the configured life has changed, the expiry claim holds the token to its life at issue and the signature's age to the life now |
| `AccessTokens.ScopesAreTheIntersection` | src/pwms/api/tokens.py:96-97 | returned scopes are the canonical, duplicate-free listing of those enabled at issue and enabled now |
| `Sync.MembershipSyncService.SyncUserMembership` | src/pwms/membership/sync_service.py:60-94 | target selection and the counting loop have exactly the declared effect on tables, caches and counters; by name, where a person ends up is in the laws below |
| `Sync.MembershipSyncService.EnsureTargets` | src/pwms/membership/sync_service.py:82-94 | the loop ensures each resolved target in turn and counts created, updated and skipped |
| `Sync.MembershipSyncService.EnsureMembership` | src/pwms/membership/sync_service.py:306-345 | the upsert's effect, by which the latest row ends active (`EnsuredIsPresent`) and others stay present; a dry run writes nothing |
| `SyncLaws.EnsuredIsPresent` | src/pwms/membership/sync_service.py:306-345 | ensuring a membership makes its latest row active |
| `SyncLaws.EnsuredKeepsPresent` | src/pwms/membership/sync_service.py:306-345 | ensuring one membership leaves every other one that was active so |
| `SyncLaws.NothingLeftToDo` | src/pwms/membership/sync_service.py:82-94 | where every resolved target is active, a pass changes no row and counts none as created or updated |
| `Sync.MembershipSyncService.SelectMpTargets` | src/pwms/membership/sync_service.py:121-139 | the resolution whose targets are named by house and party (`MemberTargetsAreNamed`), whose repetition answers the same (`MpTargetsRepeat`) and whose party may be the other house's (`PartyIsUnderItsHouseExactly`) |
| `SyncPlaces.HouseCodeExactly` | src/pwms/membership/sync_service.py:160-168 | the code is NCOP exactly for a position that ends in NCOP behind a colon, white space aside, and NA for every other position |
| `SyncPlaces.HouseOfExactly` | src/pwms/membership/sync_service.py:121-124 | the same for a row's untrimmed column |
| `SyncPlaces.IsMpExactly` | src/pwms/membership/sync_service.py:74-75 | a member's row is one whose employee type is Member, white space aside |
| `SyncPlaces.MemberTargetsAreNamed` | src/pwms/membership/sync_service.py:121-139 | a member's targets are a group named NCOP Members or NA Members after the position, and one of the party's name if given, in a role named Member of Parliament up to folding |
| `SyncPlaces.MembersSitUnderHouse` | src/pwms/membership/sync_service.py:170-189 | met for the first time, the members' group sits under the row of type house named after the position's house, or at the top where there is none |
| `SyncPlaces.PartySitsUnderUmbrella` | src/pwms/membership/sync_service.py:191-208 | met for the first time, a party's group sits under NCOP Parties or NA Parties after the position, and that under the house |
| `SyncPlaces.MemberIsPlaced` | src/pwms/membership/sync_service.py:60-139 | after a real sync a member has an active membership, as Member of Parliament, in the members' group of the position's house and in the group of the party's name |
| `SyncLaws.MpTargetsRepeat` | src/pwms/membership/sync_service.py:121-139 | a member's second resolution gives the same targets and changes no table |
| `Sync.MembershipSyncService.SelectStaffTargets` | src/pwms/membership/sync_service.py:141-154 | the resolution whose targets are named by unit and role (`StaffTargetsAreNamed`) and whose repetition answers the same (`StaffTargetsRepeat`) |
| `SyncPlaces.StaffTargetsAreNamed` | src/pwms/membership/sync_service.py:141-154 | a staff row's targets are its parent unit and its own, in that order, each the group of that name or to be skipped where there is none |
| `SyncPlaces.StaffRoleIsNamed` | src/pwms/membership/sync_service.py:289-304 | the role is the one asked for where that is known and no member's role, else the one named Staff Member |
| `SyncLaws.StaffTargetsRepeat` | src/pwms/membership/sync_service.py:141-154 | a staff row's second resolution gives the same targets and changes no table |
| `Sync.MembershipSyncService.ObtainGroup` | src/pwms/membership/sync_service.py:233-261 | the find-or-create step that leaves any other name where it was (`ObtainAnother`) |
| `SyncHouses.ObtainAnother` | src/pwms/membership/sync_service.py:233-261 | obtaining a group adds rows and cache entries only, and moves no other name |
| `Sync.MembershipSyncService.ObtainRole` | src/pwms/membership/sync_service.py:263-276 | the find-or-create step that with a fall-back answers the same again (`RoleOrRepeats`) |
| `SyncLaws.RoleOrRepeats` | src/pwms/membership/sync_service.py:278-300 | a role resolved with its fall-back resolves to the same role again, even where the fall-back was created in between |
| `SyncLaws.DryRunChangesNoTable` | src/pwms/membership/sync_service.py:60-94 | a dry run leaves groups, roles and memberships as they were |
| `SyncLaws.CountsAddUp` | src/pwms/membership/sync_service.py:82-94 | created, updated, skipped and already present add up to the targets |
| `SyncPlaces.CountersCountRows` | src/pwms/membership/sync_service.py:82-94 | in a real run created is the number of rows added and updated the number of rows changed |
| `SyncPlaces.PassTouchesOnlyTargets` | src/pwms/membership/sync_service.py:306-345 | a run changes only the user's own inactive rows for its targets, to active and open-ended, and adds only rows for its targets, active from today |
| `SyncPlaces.OthersAreUntouched` | src/pwms/membership/sync_service.py:306-345 | rows of other users stay as they were |
| `SyncLaws.RealRunMakesAllPresent` | src/pwms/membership/sync_service.py:306-345 | after a real run every resolved target's latest membership is active |
| `SyncLaws.TargetsRepeat` | src/pwms/membership/sync_service.py:121-300 | resolving the same row again gives the same targets and changes no table |
| `SyncLaws.SyncIsIdempotent` | src/pwms/membership/sync_service.py:60-94 | a second run of a row creates and updates nothing and changes no table; every resolved target is active after the first |
| `SyncHouses.PartyIsSharedAcrossHouses` | src/pwms/membership/sync_service.py:191-261 | one party code met under both houses: the first row's target sits under its house's umbrella, the second row's does not |
| `SyncHouses.EmptyTablesShareParty` | src/pwms/membership/sync_service.py:204-261 | from empty tables the second house gets the first house's group, beside an umbrella of its own that stays empty |
| `SyncHouses.RunsSettle` | src/pwms/membership/sync_service.py:60-261 | over every run of one service, how a name first came into the cache, read off the rows, is where its group sits for the rest of the run |
| `SyncHouses.PartyIsUnderItsHouseExactly` | src/pwms/membership/sync_service.py:121-261 | after any run, the next row's party sits under its own house's umbrella exactly when the name is new, or first came in under the same house, or was found as a group already there |
| `Events.EventBoard.UpdateAutomaticStatuses` | src/old/models.py:2127-2153 | bulk start and per-event completion move every event where the clock says, fill the register and count both moves |
| `Events.ClockMovesExactly` | src/old/models.py:2127-2153 | where the clock takes one event, on its start, end and status: both bounds inclusive, cancelled and postponed events untouched |
| `Events.StartingCounts` | src/old/models.py:2139-2142 | the first count is the number of events the bulk update takes out of scheduled |
| `Events.CompletingCounts` | src/old/models.py:2144-2151 | the second is the number of events that end the run completed and did not begin it so |
| `Events.EventBoard.CompleteEnded` | src/old/models.py:2145-2151 | the loop of saves completes exactly the ended events and invites their members |
| `Events.EventBoard.CreateAttendanceRecords` | src/old/models.py:2155-2166 | one row per active member, existing rows untouched |
| `Events.EventBoard.Save` | src/old/models.py:2169-2184 | rows are made exactly when the stored status turns into completed |
| `Events.RunsCompose` | src/old/models.py:2127-2153 | running at an earlier time first changes nothing about a later run, statuses and attendance alike |
| `Events.OnlyTheLastRunMatters` | src/old/models.py:2127-2153 | any rising sequence of runs ends where its last run alone would |
| `Events.CompletionFillsRegister` | src/old/models.py:2155-2184 | existing rows are never altered; new rows are exactly the completing events' active members, invited |
| `Events.RunTwiceIsOnce` | src/old/models.py:2127-2153 | a repeated run at the same time changes nothing |
| `Events.StepKeepsFilledExactly` | src/old/models.py:2126-2185 | a step keeps the register of completed events full exactly unless it saves a completed event as completed while an active member of its new group has no row |
| `Events.RunsStayFilledExactly` | src/old/models.py:2126-2185 | the register is full at every moment of a run exactly when no step of it is such a save |
| `Events.MovedEventStrandsMembers` | src/old/models.py:2169-2184 | a completed event saved into a group with a member leaves that member without a row |
| `Paging.AllPagesCoverOnce` | src/pwms/api/api.py:109-127 | for any requested limit, following next from the start yields the sequence, each item once |
| `Paging.ForwardCovers` | src/pwms/api/api.py:113-122 | from any page the pages ahead hold exactly the rest |
| `Paging.ForwardOffsets` | src/pwms/api/api.py:109-122 | page k of a walk starts k limits further on and is full unless last |
| `Paging.PreviousIsThePageBefore` | src/pwms/api/api.py:123-125 | previous of any page reached from the start is the page before it; the first has none |
| `Paging.BackAndForthExactly` | src/pwms/api/api.py:118-125 | previous then next returns exactly when the page starts at least one limit in and inside the sequence |
| `Paging.BackAndForthMissesOffset` | src/pwms/api/api.py:118-125 | three items, two a page, from offset one: back and forth ends at offset two |
| `Paging.Clamp` | src/pwms/api/api.py:110-110 | the effective limit is between one and the configured maximum, and is the one asked for where that lies between |

## Left out

- HTTP, templates, forms, admin screens, notifications, audit rows, exports, LDAP, SharePoint and Oracle access: plumbing and foreign services.
- The newer engine under src/pwms/models and src/pwms/services: the workflow engine here is the one in src/old.
- Signatures, token hashes and client secrets: a signed payload is taken as authentic, a token hash as injective, and a credential exchange as made with the right secret.
- Database failures and lost races: each view or save is one atomic step; the sync's recovery from a concurrent insert is not part of this model.
- Cache failures other than the expiry error: the fail-open answer after a broken cache only adds allowed requests outside the counts.
- Hierarchy.Stamp: does not model the upper bound of the small-integer depth column; the database refuses deeper rows.
- Permissions.CheckRbacPermission: does not model the assign permission, which the override rows of this engine have no field for; the role flag for transitions is never reached in the source and is not modelled.
- Permissions.FirstFor: several state permissions may list one role; the first in stored order decides, as the source leaves their order open.
- SyncHouses.PartyIsUnderItsHouseExactly: does not cover a party code equal to one of the four group names the service itself makes, nor dry and real runs mixed on one service (the command that builds it keeps to one mode); the starting cache is taken not to hold one house's party umbrella under the other's name.
- SyncPlaces.MemberIsPlaced: takes cached names to lead to groups of those names; the command also caches groups under their names with the code prefix stripped, which is not modelled.
- Sync.FirstGroup: groups of equal name have no further order in the source; the first in table order is taken.
- Engine.Step: the recall reason text, the referral's reason text and the notifications sent are not modelled.
- OrgTree.Winner: the built-in sort is modelled by a sorting function proved ordered and permuting; its stability plays no part.
- Acronyms.Lower: lower-casing is exact only as far as an ASCII table can tell; letters whose lower case is not ASCII never match.
- OrgTreeCompare.CompareWithStored: case folding is a parameter.
- AccessTokens.Issue: the life is a whole number of seconds, as the setting is in minutes; the random token id is not modelled.
- Tokens.Row: the lineage is a history field added by the model.
- Events.MembersOf: group membership is fixed during a run and given as a parameter.
- Editing or deleting referral and access rows, retyping or deleting workflows, user delegations, dashboards and report counts: they would only add easy members.
- Search field selection, resource parsing, the search endpoint's zero-means-default limit and page URLs: only the offsets and limits of pages are modelled.
