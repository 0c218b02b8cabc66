/** What one availability pass computes, stated rule by rule over the
    catalogue `cat` and the selection `sel` the pass starts from.

    The pass first takes a snapshot of the selected codes. The prerequisite
    rule reads only that snapshot and evicts every selected module whose
    prerequisite is missing from it; the set, term, management and
    minimum-management rules then read the selection as it is after
    eviction; finally the flags of records sharing a code are joined. */
module Propagation {
  import opened Catalog
  import opened Selection

  /** A module passes the prerequisite rule when it has none, or when its
      prerequisite's code is among the selected codes `scodes`. */
  predicate PrereqMet(m: Module, scodes: seq<string>)
  {
    m.prerequisite == "" || m.prerequisite in scodes
  }

  /** The selection after the prerequisite rule has visited the first `k`
      records of the catalogue: each visited record whose prerequisite is
      missing from the snapshot `scodes` is taken out when selected. */
  function Evicted(cat: seq<Module>, scodes: seq<string>, sel: seq<nat>, k: nat): (r: seq<nat>)
    requires k <= |cat| && NoDup(sel)
    ensures NoDup(r) && |r| <= |sel|
    ensures forall x: nat :: x in r <==> x in sel && (x < k ==> PrereqMet(cat[x], scodes))
    ensures InRange(sel, |cat|) ==> InRange(r, |cat|)
  {
    if k == 0 then sel
    else
      var prev := Evicted(cat, scodes, sel, k - 1);
      if !PrereqMet(cat[k - 1], scodes) && k - 1 in prev then
        RemoveNoDup(prev, k - 1);
        var r := Remove(prev, k - 1);
        InRangeSubset(r, prev, |cat|);
        r
      else prev
  }

  /** When no selected record among the first `k` fails its prerequisite,
      the selection is left as it is, order included. */
  lemma {:induction false} NothingEvicted(cat: seq<Module>, scodes: seq<string>, sel: seq<nat>, k: nat)
    requires k <= |cat| && NoDup(sel)
    requires forall x :: x in sel && x < k ==> PrereqMet(cat[x], scodes)
    ensures Evicted(cat, scodes, sel, k) == sel
  {
    if k > 0 {
      NothingEvicted(cat, scodes, sel, k - 1);
    }
  }

  /** The selection after the prerequisite rule: the snapshot of the codes is
      taken before any eviction, so a module whose prerequisite is evicted in
      the same pass stays. */
  function Survivors(cat: seq<Module>, sel: seq<nat>): (r: seq<nat>)
    requires InRange(sel, |cat|) && NoDup(sel)
    ensures InRange(r, |cat|) && NoDup(r) && |r| <= |sel|
    ensures forall k :: k in r <==> k in sel && PrereqMet(cat[k], CodesOf(cat, sel))
  {
    Evicted(cat, CodesOf(cat, sel), sel, |cat|)
  }

  /** A pass that finds every selected prerequisite met keeps the selection,
      order included. */
  lemma SurvivorsKeepAll(cat: seq<Module>, sel: seq<nat>)
    requires InRange(sel, |cat|) && NoDup(sel)
    requires forall x :: x in sel ==> PrereqMet(cat[x], CodesOf(cat, sel))
    ensures Survivors(cat, sel) == sel
  {
    NothingEvicted(cat, CodesOf(cat, sel), sel, |cat|);
  }

  /** Some selected module other than `k` shares `k`'s term and set. The
      definition walks the selection front to back, as the rule's loop does. */
  predicate SetExcluded(cat: seq<Module>, sel: seq<nat>, k: nat)
    requires InRange(sel, |cat|) && k < |cat|
    ensures SetExcluded(cat, sel, k) <==>
              exists q :: 0 <= q < |sel| && sel[q] != k && SameSlot(cat[sel[q]], cat[k])
  {
    if sel == [] then false
    else
      var last := sel[|sel| - 1];
      var front := sel[..|sel| - 1];
      assert InRange(front, |cat|) by {
        assert forall p :: 0 <= p < |front| ==> front[p] == sel[p];
      }
      var r := SetExcluded(cat, front, k) || (last != k && SameSlot(cat[last], cat[k]));
      assert forall q :: 0 <= q < |front| ==> front[q] == sel[q];
      r
  }

  /** How many selected records have term `t`. */
  function TermCount(cat: seq<Module>, sel: seq<nat>, t: string): (r: nat)
    requires InRange(sel, |cat|)
    ensures r <= |sel|
    ensures r == 0 <==> forall q :: 0 <= q < |sel| ==> cat[sel[q]].term != t
  {
    if sel == [] then 0
    else
      var front := sel[..|sel| - 1];
      assert forall p :: 0 <= p < |front| ==> front[p] == sel[p];
      TermCount(cat, front, t) + (if cat[sel[|sel| - 1]].term == t then 1 else 0)
  }

  /** When every selected record has term `t`, all of them are counted. */
  lemma {:induction false} TermCountAll(cat: seq<Module>, sel: seq<nat>, t: string)
    requires InRange(sel, |cat|)
    requires forall q :: 0 <= q < |sel| ==> cat[sel[q]].term == t
    ensures TermCount(cat, sel, t) == |sel|
  {
    if sel != [] {
      var front := sel[..|sel| - 1];
      assert forall p :: 0 <= p < |front| ==> front[p] == sel[p];
      TermCountAll(cat, front, t);
    }
  }

  /** How many selected records are management modules. */
  function ManagementCount(cat: seq<Module>, sel: seq<nat>): (r: nat)
    requires WellFormed(cat) && InRange(sel, |cat|)
    ensures r <= |sel|
    ensures r == 0 <==> forall q :: 0 <= q < |sel| ==> !IsManagement(cat[sel[q]])
  {
    if sel == [] then 0
    else
      var front := sel[..|sel| - 1];
      assert forall p :: 0 <= p < |front| ==> front[p] == sel[p];
      ManagementCount(cat, front) + (if IsManagement(cat[sel[|sel| - 1]]) then 1 else 0)
  }

  /** An unselected module is locked by a quota: five Michaelmas modules are
      selected and it is a Michaelmas module, the same for Lent, two
      management modules are selected and it is one, or nine modules and no
      management module are selected and it is not one. Every test is an
      equality, as written in the rules. */
  predicate QuotaLocked(cat: seq<Module>, sel: seq<nat>, k: nat)
    requires WellFormed(cat) && InRange(sel, |cat|) && k < |cat|
  {
    k !in sel &&
    ((cat[k].term == "M" && TermCount(cat, sel, "M") == 5) ||
     (cat[k].term == "L" && TermCount(cat, sel, "L") == 5) ||
     (IsManagement(cat[k]) && ManagementCount(cat, sel) == 2) ||
     (!IsManagement(cat[k]) && |sel| == 9 && ManagementCount(cat, sel) < 1))
  }

  /** The flag of record `k` before paired records are joined. */
  predicate Unlinked(cat: seq<Module>, sel: seq<nat>, k: nat)
    requires WellFormed(cat) && InRange(sel, |cat|) && NoDup(sel) && k < |cat|
  {
    var kept := Survivors(cat, sel);
    PrereqMet(cat[k], CodesOf(cat, sel)) && !SetExcluded(cat, kept, k) && !QuotaLocked(cat, kept, k)
  }

  /** Every record that shares `k`'s code has its flag set. */
  predicate AllInGroup(cat: seq<Module>, flags: seq<bool>, k: nat)
    requires |flags| == |cat| && k < |cat|
  {
    forall j :: 0 <= j < |cat| && cat[j].code == cat[k].code ==> flags[j]
  }

  /** Records with one code have one group: its conjunction holds for all
      of them or for none, and it holds only where every member's flag is on. */
  lemma GroupFacts(cat: seq<Module>, flags: seq<bool>)
    requires |flags| == |cat|
    ensures forall i, k :: 0 <= i < |cat| && 0 <= k < |cat| && cat[i].code == cat[k].code ==>
              AllInGroup(cat, flags, i) == AllInGroup(cat, flags, k)
    ensures forall i :: 0 <= i < |cat| && AllInGroup(cat, flags, i) ==> flags[i]
  {
  }

  /** Midway through the join, where the flags lie between each record's
      own flag and its group's conjunction, the conjunction over a group is
      still the one from before. */
  lemma LinkStep(cat: seq<Module>, before: seq<bool>, cur: seq<bool>, i: nat)
    requires |before| == |cat| && |cur| == |cat| && i < |cat|
    requires forall k :: 0 <= k < |cat| && cur[k] ==> before[k]
    requires forall k :: 0 <= k < |cat| && AllInGroup(cat, before, k) ==> cur[k]
    ensures AllInGroup(cat, cur, i) == AllInGroup(cat, before, i)
  {
    if AllInGroup(cat, before, i) {
      forall j | 0 <= j < |cat| && cat[j].code == cat[i].code
        ensures cur[j]
      {
        GroupFacts(cat, before);
      }
    }
  }

  /** One outer step of the join keeps its invariant: flags stay between
      each record's own flag and its group's conjunction, and the records
      visited so far hold exactly their group's conjunction. */
  lemma LinkStepKeeps(cat: seq<Module>, before: seq<bool>, cur: seq<bool>, next: seq<bool>, i: nat)
    requires |before| == |cat| && |cur| == |cat| && |next| == |cat| && i < |cat|
    requires forall k :: 0 <= k < |cat| && cur[k] ==> before[k]
    requires forall k :: 0 <= k < |cat| && AllInGroup(cat, before, k) ==> cur[k]
    requires forall k :: 0 <= k < i && !AllInGroup(cat, before, k) ==> !cur[k]
    requires forall k :: 0 <= k < |cat| && next[k] ==> cur[k]
    requires forall k :: 0 <= k < |cat| && cat[k].code != cat[i].code ==> next[k] == cur[k]
    requires next[i] == AllInGroup(cat, cur, i)
    requires AllInGroup(cat, cur, i) ==> forall k :: 0 <= k < |cat| ==> next[k] == cur[k]
    ensures forall k :: 0 <= k < |cat| && next[k] ==> before[k]
    ensures forall k :: 0 <= k < |cat| && AllInGroup(cat, before, k) ==> next[k]
    ensures forall k :: 0 <= k < i + 1 && !AllInGroup(cat, before, k) ==> !next[k]
  {
    LinkStep(cat, before, cur, i);
    GroupFacts(cat, before);
  }

  /** The flags of all records before paired records are joined. */
  function UnlinkedFlags(cat: seq<Module>, sel: seq<nat>): (r: seq<bool>)
    requires WellFormed(cat) && InRange(sel, |cat|) && NoDup(sel)
    ensures |r| == |cat|
    ensures forall k :: 0 <= k < |cat| ==> r[k] == Unlinked(cat, sel, k)
  {
    seq(|cat|, k requires 0 <= k < |cat| => Unlinked(cat, sel, k))
  }

  /** Whether record `k` is available after a full pass started from `sel`. */
  predicate Available(cat: seq<Module>, sel: seq<nat>, k: nat)
    requires WellFormed(cat) && InRange(sel, |cat|) && NoDup(sel) && k < |cat|
  {
    AllInGroup(cat, UnlinkedFlags(cat, sel), k)
  }

  /** Availability only narrows: a record available after the pass passed
      every rule on its own. */
  lemma AvailableNarrows(cat: seq<Module>, sel: seq<nat>, k: nat)
    requires WellFormed(cat) && InRange(sel, |cat|) && NoDup(sel) && k < |cat|
    ensures Available(cat, sel, k) ==> Unlinked(cat, sel, k)
  {
    GroupFacts(cat, UnlinkedFlags(cat, sel));
  }

  /** The prerequisite rule: a record whose prerequisite is missing from the
      snapshot leaves the selection and ends unavailable; every other
      selected record stays selected. */
  lemma PrerequisiteRule(cat: seq<Module>, sel: seq<nat>, k: nat)
    requires WellFormed(cat) && InRange(sel, |cat|) && NoDup(sel) && k < |cat|
    ensures !PrereqMet(cat[k], CodesOf(cat, sel)) ==> k !in Survivors(cat, sel) && !Available(cat, sel, k)
    ensures k in sel && PrereqMet(cat[k], CodesOf(cat, sel)) ==> k in Survivors(cat, sel)
  {
    AvailableNarrows(cat, sel, k);
  }

  /** The set rule: a record that shares term and set with another record
      still selected after eviction ends unavailable, selected or not. */
  lemma SetExclusionRule(cat: seq<Module>, sel: seq<nat>, j: nat, k: nat)
    requires WellFormed(cat) && InRange(sel, |cat|) && NoDup(sel) && k < |cat|
    requires j in Survivors(cat, sel) && j != k && SameSlot(cat[j], cat[k])
    ensures !Available(cat, sel, k)
  {
    var kept := Survivors(cat, sel);
    var q :| 0 <= q < |kept| && kept[q] == j;
    assert SetExcluded(cat, kept, k);
    AvailableNarrows(cat, sel, k);
  }

  /** The term quota: when exactly five records still selected have term
      `t`, every other record of term `t` ends unavailable. */
  lemma TermQuotaRule(cat: seq<Module>, sel: seq<nat>, t: string, k: nat)
    requires WellFormed(cat) && InRange(sel, |cat|) && NoDup(sel) && k < |cat|
    requires t == "M" || t == "L"
    requires TermCount(cat, Survivors(cat, sel), t) == 5
    requires cat[k].term == t && k !in Survivors(cat, sel)
    ensures !Available(cat, sel, k)
  {
    assert QuotaLocked(cat, Survivors(cat, sel), k);
    AvailableNarrows(cat, sel, k);
  }

  /** The management quota: with exactly two management records still
      selected, every other management record ends unavailable. */
  lemma ManagementQuotaRule(cat: seq<Module>, sel: seq<nat>, k: nat)
    requires WellFormed(cat) && InRange(sel, |cat|) && NoDup(sel) && k < |cat|
    requires ManagementCount(cat, Survivors(cat, sel)) == 2
    requires IsManagement(cat[k]) && k !in Survivors(cat, sel)
    ensures !Available(cat, sel, k)
  {
    assert QuotaLocked(cat, Survivors(cat, sel), k);
    AvailableNarrows(cat, sel, k);
  }

  /** The minimum-management rule: with exactly nine records still selected
      and none of them a management record, every other record that is not
      a management record ends unavailable. */
  lemma MinimumManagementRule(cat: seq<Module>, sel: seq<nat>, k: nat)
    requires WellFormed(cat) && InRange(sel, |cat|) && NoDup(sel) && k < |cat|
    requires |Survivors(cat, sel)| == 9 && ManagementCount(cat, Survivors(cat, sel)) == 0
    requires !IsManagement(cat[k]) && k !in Survivors(cat, sel)
    ensures !Available(cat, sel, k)
  {
    assert QuotaLocked(cat, Survivors(cat, sel), k);
    AvailableNarrows(cat, sel, k);
  }

  /** The quotas never lock a record that is still selected. */
  lemma QuotasSpareSelected(cat: seq<Module>, sel: seq<nat>, k: nat)
    requires WellFormed(cat) && InRange(sel, |cat|) && NoDup(sel) && k < |cat|
    requires k in Survivors(cat, sel)
    ensures !QuotaLocked(cat, Survivors(cat, sel), k)
  {
  }

  /** Paired records: records with one code end with one flag, and it is on
      exactly when every one of them passed the rules on its own. */
  lemma LinkageRule(cat: seq<Module>, sel: seq<nat>, i: nat, k: nat)
    requires WellFormed(cat) && InRange(sel, |cat|) && NoDup(sel) && i < |cat| && k < |cat|
    requires cat[i].code == cat[k].code
    ensures Available(cat, sel, i) == Available(cat, sel, k)
    ensures Available(cat, sel, k) <==>
              forall j :: 0 <= j < |cat| && cat[j].code == cat[k].code ==> Unlinked(cat, sel, j)
  {
    GroupFacts(cat, UnlinkedFlags(cat, sel));
  }

  /** A record whose code no other record carries is available exactly when
      its prerequisite is met, no record still selected takes its term and
      set, and no quota locks it. */
  lemma UnpairedAvailable(cat: seq<Module>, sel: seq<nat>, k: nat)
    requires WellFormed(cat) && InRange(sel, |cat|) && NoDup(sel) && k < |cat|
    requires forall j :: 0 <= j < |cat| && j != k ==> cat[j].code != cat[k].code
    ensures Available(cat, sel, k) <==>
              PrereqMet(cat[k], CodesOf(cat, sel)) &&
              !SetExcluded(cat, Survivors(cat, sel), k) &&
              !QuotaLocked(cat, Survivors(cat, sel), k)
  {
    AvailableNarrows(cat, sel, k);
  }
}
