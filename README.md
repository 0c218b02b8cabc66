# Module planner rule engine

A Dafny model of the rule engine of the module planner in `Modules.py`: the
part that decides, after every change to a student's selection, which
modules may still be picked (availability) and which engineering areas the
selection qualifies for (eligibility).

The engine works on a global catalogue of module records, a global list of
area records and a global list `selected`. It is modelled as one class,
`Session.Planner`, whose fields are the catalogue (`modules`), the areas
(`areas`), the `available` and `eligible` flags of those records (two
arrays indexed like the records) and the selection (`selected`, a sequence
of record indices in selection order). Its methods follow the source's
functions and the comment blocks inside them, loop for loop:

- `Toggle` is the module button: every record whose code equals the pressed
  record's code leaves the selection when it is in it and is appended
  otherwise, then the session is refreshed. Paired ("double") modules are
  two records with one code, so they move together.
- `Reset` empties the selection and refreshes.
- `Refresh` runs the availability pass and then the eligibility pass.
- `Availability` marks every record available, takes a snapshot of the
  selected codes, applies the prerequisite rule against that snapshot
  (evicting failing records from the selection), then the set rule, the
  Michaelmas and Lent quotas of five, the management quota of two and the
  minimum-management rule at nine selected, and finally joins the flags of
  records that share a code.
- `Qualifications` gives each area the rule its name selects and evaluates
  it over the selected codes, one entry per selected record.

Each method is proved against functions that state the rules once, in
`Propagation` (availability) and `Eligibility` (area rules). Lemmas then
state what the rules promise: what toggling does to membership, when a
record is evicted, when each rule disables a record, that paired records
share one flag, what each area needs, that eligibility ignores selection
order and never shrinks when more is selected. `Scenarios` holds small
catalogues that show the engine's less obvious behaviour.

Behaviour as written, where a reading of the rules might expect otherwise
(the model follows the code):

- One refresh is not idempotent. The prerequisite rule reads the snapshot
  taken before any eviction, so evicting a module does not evict, in the
  same pass, a module whose prerequisite it was; the next refresh does
  (`Scenarios.EvictionDoesNotCascade`, `Scenarios.SecondPassEvictsMore`).
- A selected module is not always available. The set rule disables every
  other record in the same term and set as a selected one, and this includes
  selected records; a paired module whose two records (with different
  names) share term and set disables itself once pressed (`Scenarios.PairLocksItself`,
  `Scenarios.PressLockedPair`).
- The quotas test for exactly five, exactly two and exactly nine. Pressing a
  paired module can take the Michaelmas count from four to six, after which
  the Michaelmas quota no longer fires (`Scenarios.TermQuotaSkipsPastFive`).
- The set of a record is kept as the string read from the file; only
  equality is used on it.

## Model

| member | source | states |
|---|---|---|
| Catalog.IsManagement | Modules.py:195 | a module is a management module exactly when the second character of its code is 'E' |
| Catalog.SameSlot | Modules.py:183 | two modules compete for one place exactly when their terms are equal and their sets are equal |
| Catalog.CodesOf | Modules.py:171 | the snapshot of selected codes has one entry per selected record, in selection order, each the code of that record |
| Catalog.CodesOfMembership | Modules.py:228 | a code is among the selected codes exactly when some selected record carries it |
| Selection.Remove | Modules.py:102-103 | `list.remove` on an element the caller has found in the list shortens the list by one |
| Selection.IndexOf | Modules.py:103 | the position found holds the element and no earlier position does |
| Selection.RemoveFirst | Modules.py:103 | `list.remove` takes out the first occurrence and keeps the other elements in order |
| Selection.RemoveNoDup | Modules.py:178 | on a list without duplicates, removal keeps exactly the other elements and keeps the list free of duplicates |
| Selection.Flip | Modules.py:102-105 | one visited record leaves the selection when selected and joins it otherwise; no duplicates arise |
| Selection.Toggled | Modules.py:100-105 | after a press, a record is selected exactly when it was not and has the pressed code, or it was and has another code; no duplicates, all in range |
| Selection.ToggledElsewhere | Modules.py:100-105 | records with another code leave the selection list unchanged, order included |
| Selection.ToggleTwice | Modules.py:100-105 | pressing the same code twice with nothing in between restores the membership of every record |
| Propagation.PrereqMet | Modules.py:175 | a module passes the prerequisite rule exactly when its prerequisite is empty or is among the snapshot codes |
| Propagation.Evicted | Modules.py:174-178 | after visiting k records, a record stays selected exactly when it was selected and, if visited, its prerequisite is empty or in the snapshot; the list only shrinks |
| Propagation.NothingEvicted | Modules.py:174-178 | when no visited selected record fails its prerequisite, the selection list is unchanged |
| Propagation.Survivors | Modules.py:171-178 | after the prerequisite rule a record is selected exactly when it was and its prerequisite is met by the pre-pass snapshot; no other record is removed |
| Propagation.SurvivorsKeepAll | Modules.py:171-178 | a pass in which every selected prerequisite is met leaves the selection as it was |
| Propagation.SetExcluded | Modules.py:181-184 | the set rule fires for a record exactly when some other selected record has its term and its set |
| Propagation.TermCount | Modules.py:187-194 | the term counter is at most the selection's length and is zero exactly when no selected record has that term |
| Propagation.TermCountAll | Modules.py:190-194 | when every selected record has the term, the counter equals the number of selected records |
| Propagation.ManagementCount | Modules.py:189-196 | the management counter is at most the selection's length and is zero exactly when no selected code has 'E' second |
| Propagation.QuotaLocked | Modules.py:198-217 | an unselected module is locked exactly when it is of term M with five M selected, of term L with five L selected, a management module with two management selected, or a non-management module with nine selected and no management one |
| Propagation.GroupFacts | Modules.py:219-224 | records with one code have one joined flag, and a joined flag is on only where the record's own flag was on |
| Propagation.LinkStep | Modules.py:220-224 | midway through the join, each group's conjunction is still the one from before the join |
| Propagation.LinkStepKeeps | Modules.py:220-224 | one outer step of the join keeps flags between each record's own flag and its group's conjunction, and settles the visited record |
| Propagation.UnlinkedFlags | Modules.py:167-217 | the flag of each record before the join is the outcome of the prerequisite, set and quota rules for it |
| Propagation.Available | Modules.py:165-224 | a module is available after a pass exactly when every record sharing its code passed the prerequisite, set and quota rules |
| Propagation.AvailableNarrows | Modules.py:167-224 | availability only narrows: a record available after the pass passed every rule on its own |
| Propagation.PrerequisiteRule | Modules.py:174-178 | a record whose prerequisite is missing from the snapshot is evicted and ends unavailable; a selected record whose prerequisite is met stays selected |
| Propagation.SetExclusionRule | Modules.py:181-184 | a record sharing term and set with another record still selected ends unavailable, whether selected or not |
| Propagation.TermQuotaRule | Modules.py:198-206 | with exactly five records of term M (or L) still selected, every unselected record of that term ends unavailable |
| Propagation.ManagementQuotaRule | Modules.py:208-211 | with exactly two management records still selected, every unselected management record ends unavailable |
| Propagation.MinimumManagementRule | Modules.py:213-217 | with exactly nine records still selected and none of them management, every unselected non-management record ends unavailable |
| Propagation.QuotasSpareSelected | Modules.py:198-217 | none of the quotas locks a record that is still selected |
| Propagation.LinkageRule | Modules.py:219-224 | records with one code end with equal flags, on exactly when every record of the code passed the rules on its own |
| Propagation.UnpairedAvailable | Modules.py:165-224 | a record with a code of its own is available exactly when its prerequisite is met, the set rule does not fire and no quota locks it |
| Eligibility.RuleFor | Modules.py:237-276 | the area named Aerospace needs 3A1 and 3A3 plus two more; Electrical and Electronic every listed code; Instrumentation and Control 3F1 or 3F2 plus five more; Bioengineering six plus three of 3G1-3G5; Electrical and Information Sciences eight; any other area six |
| Eligibility.Eligible | Modules.py:230-276 | each kind of rule over the selected codes, with an anchored count left at zero when its anchors are missing |
| Eligibility.CountListed | Modules.py:239-241 | a count is at most the number of selected entries and is zero exactly when no entry is on the list and off the skip list |
| Eligibility.CountEntries | Modules.py:239-241 | the loop over the selected codes counts exactly the entries on the area's list and off the anchors |
| Eligibility.CountBoth | Modules.py:258-263 | one loop counts both the area's listed entries and the entries among 3G1-3G5 |
| Eligibility.Evaluate | Modules.py:230-276 | the counting loops of each area kind compute exactly the area's rule over the selected codes |
| Eligibility.CountListedAppend | Modules.py:259-271 | counting over two runs of selected codes adds up |
| Eligibility.CountListedSplit | Modules.py:239-241 | taking one entry out of the selected codes takes its share out of the count |
| Eligibility.CountListedPermutation | Modules.py:239-241 | a count does not depend on the order of the selected codes |
| Eligibility.EligibleOrderIndependent | Modules.py:227-276 | eligibility for any area does not depend on the order in which modules were selected |
| Eligibility.EligibleMonotone | Modules.py:227-276 | selecting more modules never takes an area's eligibility away |
| Eligibility.PairedCodeCountsTwice | Modules.py:228 | a code entered once per record of a selected pair adds two to any count it takes part in |
| Eligibility.AnchoredAreaRules | Modules.py:237-255 | Aerospace: eligible exactly when 3A1 and 3A3 are selected and two other listed entries are; Instrumentation and Control: exactly when 3F1 or 3F2 is selected and five listed entries other than both anchors are |
| Eligibility.ThresholdAreaRules | Modules.py:245-276 | Electrical and Electronic: exactly when every listed code is selected; Bioengineering: six listed entries and three of 3G1-3G5; Electrical and Information Sciences: eight listed entries; any other area: six |
| Eligibility.TwoPresentCountTwo | Modules.py:238-241 | two distinct selected codes on a list give a count of at least two |
| Eligibility.CountWithSkipBound | Modules.py:240 | counted entries and skipped entries together never exceed the number of selected entries |
| Eligibility.EligibleNeedsSelections | Modules.py:237-276 | Aerospace needs at least four selected records, Instrumentation and Control six, Electrical and Information Sciences eight, every area other than Electrical and Electronic six |
| Session.Planner.constructor | Modules.py:279-296 | a session starts with an empty selection and the flags of one refresh over it |
| Session.Planner.Toggle | Modules.py:97-108 | the new selection is the toggled selection after eviction, and the flags are those of a refresh from the toggled selection |
| Session.Planner.ToggleCode | Modules.py:100-105 | the selection loop computes exactly the toggled selection |
| Session.Planner.Reset | Modules.py:136-138 | after a reset nothing is selected and the flags are those of a refresh from the empty selection |
| Session.Planner.Refresh | Modules.py:141-162 | the selection becomes the survivors of the prerequisite rule, availability is that of a pass from the old selection and eligibility is computed on the new one |
| Session.Planner.Availability | Modules.py:165-224 | the selection becomes the survivors, every flag equals the rules' outcome for the old selection, and records with one code share a flag |
| Session.Planner.MarkAllAvailable | Modules.py:167-169 | every record is marked available |
| Session.Planner.ApplyPrerequisites | Modules.py:173-178 | each flag is switched off exactly for records failing the snapshot, and the selection loses exactly those records |
| Session.Planner.ApplySetExclusion | Modules.py:180-184 | each flag is switched off exactly for records the set rule fires for |
| Session.Planner.CountSelected | Modules.py:186-196 | the three counters equal the Michaelmas, Lent and management counts of the selection |
| Session.Planner.ApplyQuotas | Modules.py:198-217 | each flag is switched off exactly for unselected records a quota locks |
| Session.Planner.DisableUnselectedInTerm | Modules.py:198-206 | exactly the unselected records of the term are switched off |
| Session.Planner.DisableUnselectedByCategory | Modules.py:208-217 | exactly the unselected management (or non-management) records are switched off |
| Session.Planner.LinkPairs | Modules.py:219-224 | each flag becomes the conjunction of the flags of its code's records as they were before the join |
| Session.Planner.LinkWith | Modules.py:221-224 | one outer step of the join switches record i to its group's conjunction, only switches flags off, and touches no other code |
| Session.Planner.Qualifications | Modules.py:227-276 | each area's flag is its rule's outcome over the selected codes; availability is unchanged |
| Scenarios.EvictionDoesNotCascade | Modules.py:171-178 | with 3A2 deselected, one pass evicts 3A4 but keeps 3A5, whose prerequisite 3A4 was in the snapshot |
| Scenarios.SecondPassEvictsMore | Modules.py:171-178 | the next pass from that selection evicts 3A5 as well |
| Scenarios.PairLocksItself | Modules.py:100-105 | for any catalogue of one pair whose records share term and set, one press selects both records, nothing is evicted, and both end unavailable |
| Scenarios.PressLockedPair | Modules.py:97-108 | on such a catalogue a fresh session and one press leave both records selected and both disabled |
| Scenarios.PairVisitFour | Modules.py:100-105 | the press on the Michaelmas pair leaves the four selected singles in place |
| Scenarios.PairVisitFive | Modules.py:100-105 | it then appends the pair's first record |
| Scenarios.PairVisitSix | Modules.py:100-105 | and then its second record |
| Scenarios.PairJoinsMichaelmas | Modules.py:100-105 | with four Michaelmas singles selected, pressing a Michaelmas pair appends both of its records |
| Scenarios.SixMichaelmas | Modules.py:190-196 | that selection counts six Michaelmas records and no management record |
| Scenarios.MichaelmasKept | Modules.py:174-178 | with no prerequisites nothing is evicted from that selection |
| Scenarios.SeventhIsFree | Modules.py:181-184 | the seventh Michaelmas record shares neither set nor code with a selected record |
| Scenarios.SeventhNotLocked | Modules.py:198-217 | with six Michaelmas records selected no quota locks the seventh Michaelmas module |
| Scenarios.TermQuotaSkipsPastFive | Modules.py:198-201 | with six Michaelmas records selected the quota does not fire and the seventh Michaelmas module is available |
| Scenarios.PairCountsTwiceForAerospace | Modules.py:237-243 | both anchors and one selected pair make Aerospace eligible, while both anchors and one single do not |
| Scenarios.AllCodesNeedsEveryCode | Modules.py:245-246 | Electrical and Electronic is eligible with all listed codes in any order and not with one missing |

## Left out

- The Tk window: the static widgets, the module and area buttons, the
  area button handler, the colour and enabled-state calls of `refresh` and
  the main loop (Modules.py:46-94, 111-133, 145-162, 286-298). They only
  display the state the engine computes.
- `importer` (Modules.py:30-43): the CSV files are read outside the model;
  `Session.Planner.constructor` takes the parsed module and area records.
- The help strings `ruletext` and `guidetext` (Modules.py:6-7).
- Identity: the source compares records with dataclass value equality
  (all fields, `available` included) for `in`, `remove` and `!=`; the model
  identifies a record by its index in the catalogue. The two differ only for
  two records equal in every field, which the model treats as two modules.
- The `available` and `eligible` fields are kept in two arrays beside the
  immutable records rather than inside them.
- Session.Planner.constructor: requires every code to have at least two
  characters, which the management test `code[1]` needs; the source would
  fail on a shorter code.
- Selection.Remove: requires the element to be present. `list.remove` raises
  on an absent element, and both callers (Modules.py:102-103, 177-178) test
  membership first, so that case is never reached.
