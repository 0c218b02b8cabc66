/** The state of one planning session and the operations that change it:
    pressing a module button, resetting, and the refresh that recomputes
    availability and eligibility after each of them. */
module Session {
  import opened Catalog
  import opened Selection
  import opened Propagation
  import opened Eligibility

  class Planner {
    /** The module records, as loaded. */
    const modules: seq<Module>
    /** The area records, as loaded. */
    const areas: seq<Area>
    /** The `available` field of each module record, by index. */
    const available: array<bool>
    /** The `eligible` field of each area record, by index. */
    const eligible: array<bool>
    /** The selected module records, as indices in selection order. */
    var selected: seq<nat>

    ghost predicate Valid()
      reads this
    {
      WellFormed(modules) &&
      available.Length == |modules| && eligible.Length == |areas| && available != eligible &&
      InRange(selected, |modules|) && NoDup(selected)
    }

    /** The flags show the outcome of a full refresh started from `sel`. */
    ghost predicate Shows(sel: seq<nat>)
      requires Valid() && InRange(sel, |modules|) && NoDup(sel)
      reads this, available, eligible
    {
      (forall k :: 0 <= k < |modules| ==> available[k] == Available(modules, sel, k)) &&
      (forall a :: 0 <= a < |areas| ==>
         eligible[a] == Eligible(RuleFor(areas[a].name), areas[a].codes, CodesOf(modules, selected)))
    }

    /** A session over the loaded records, refreshed once with nothing selected. */
    constructor (mods: seq<Module>, ars: seq<Area>)
      requires WellFormed(mods)
      ensures Valid() && fresh(available) && fresh(eligible)
      ensures modules == mods && areas == ars && selected == []
      ensures Shows([])
    {
      modules := mods;
      areas := ars;
      selected := [];
      available := new bool[|mods|](_ => true);
      eligible := new bool[|ars|](_ => false);
      new;
      Refresh();
    }

    /** A press on the button of module `i`: every record with the same code
        leaves the selection when it is in it and joins it otherwise; then
        the session is refreshed. */
    method Toggle(i: nat)
      requires Valid() && i < |modules|
      modifies this, available, eligible
      ensures Valid()
      ensures selected == Survivors(modules, Toggled(modules, old(selected), modules[i].code, |modules|))
      ensures Shows(Toggled(modules, old(selected), modules[i].code, |modules|))
    {
      ToggleCode(modules[i].code);
      Refresh();
    }

    /** The selection change of a press: the records with code `code` are
        visited in catalogue order; each one is removed when selected and
        appended otherwise. */
    method ToggleCode(code: string)
      requires Valid()
      modifies this
      ensures Valid()
      ensures selected == Toggled(modules, old(selected), code, |modules|)
    {
      for k := 0 to |modules|
        invariant selected == Toggled(modules, old(selected), code, k)
      {
        if modules[k].code == code {
          if k in selected {
            selected := Remove(selected, k);
          } else {
            selected := selected + [k];
          }
        }
      }
    }

    /** The reset button: the selection is emptied, then the session is refreshed. */
    method Reset()
      requires Valid()
      modifies this, available, eligible
      ensures Valid()
      ensures selected == []
      ensures Shows([])
    {
      selected := [];
      Refresh();
    }

    /** Availability first, then eligibility over the selection availability left. */
    method Refresh()
      requires Valid()
      modifies this, available, eligible
      ensures Valid()
      ensures selected == Survivors(modules, old(selected))
      ensures Shows(old(selected))
    {
      Availability();
      Qualifications();
    }

    /** One full availability pass. */
    method Availability()
      requires Valid()
      modifies this, available
      ensures Valid()
      ensures selected == Survivors(modules, old(selected))
      ensures forall k :: 0 <= k < |modules| ==> available[k] == Available(modules, old(selected), k)
      ensures forall i, j :: 0 <= i < |modules| && 0 <= j < |modules| && modules[i].code == modules[j].code ==>
                available[i] == available[j]
    {
      ghost var sel0 := selected;
      MarkAllAvailable();
      var scodes := CodesOf(modules, selected);
      ApplyPrerequisites(scodes);
      assert selected == Survivors(modules, sel0);
      ApplySetExclusion();
      ApplyQuotas();
      ghost var before := available[..];
      assert before == UnlinkedFlags(modules, sel0);
      LinkPairs();
    }

    /** Every module starts out available. */
    method MarkAllAvailable()
      requires Valid()
      modifies available
      ensures forall k :: 0 <= k < available.Length ==> available[k]
    {
      for k := 0 to available.Length
        invariant forall j :: 0 <= j < k ==> available[j]
      {
        available[k] := true;
      }
    }

    /** The prerequisite rule against the snapshot `scodes`: a module whose
        prerequisite is missing becomes unavailable and, when selected, is
        taken out of the selection. */
    method ApplyPrerequisites(scodes: seq<string>)
      requires Valid()
      modifies this, available
      ensures Valid()
      ensures selected == Evicted(modules, scodes, old(selected), |modules|)
      ensures forall k :: 0 <= k < |modules| ==>
                available[k] == (old(available[k]) && PrereqMet(modules[k], scodes))
    {
      for k := 0 to |modules|
        invariant selected == Evicted(modules, scodes, old(selected), k)
        invariant forall j :: 0 <= j < |modules| ==>
                    available[j] == (old(available[j]) && (j >= k || PrereqMet(modules[j], scodes)))
      {
        if modules[k].prerequisite != "" && modules[k].prerequisite !in scodes {
          available[k] := false;
          if k in selected {
            selected := Remove(selected, k);
          }
        }
      }
    }

    /** The set rule: every module other than a selected one that shares its
        term and set becomes unavailable. */
    method ApplySetExclusion()
      requires Valid()
      modifies available
      ensures forall k :: 0 <= k < |modules| ==>
                available[k] == (old(available[k]) && !SetExcluded(modules, selected, k))
    {
      for p := 0 to |selected|
        invariant forall k :: 0 <= k < |modules| ==>
                    available[k] == (old(available[k]) && !SetExcluded(modules, selected[..p], k))
      {
        var s := selected[p];
        assert selected[..p + 1][..p] == selected[..p];
        for k := 0 to |modules|
          invariant forall j :: 0 <= j < k ==>
                      available[j] == (old(available[j]) && !SetExcluded(modules, selected[..p + 1], j))
          invariant forall j :: k <= j < |modules| ==>
                      available[j] == (old(available[j]) && !SetExcluded(modules, selected[..p], j))
        {
          if s != k && modules[s].term == modules[k].term && modules[s].setLabel == modules[k].setLabel {
            available[k] := false;
          }
        }
      }
      assert selected[..|selected|] == selected;
    }

    /** The three counters over the selection: Michaelmas modules, Lent
        modules and management modules. */
    method CountSelected() returns (michCount: nat, lentCount: nat, managementCount: nat)
      requires Valid()
      ensures michCount == TermCount(modules, selected, "M")
      ensures lentCount == TermCount(modules, selected, "L")
      ensures managementCount == ManagementCount(modules, selected)
    {
      michCount, lentCount, managementCount := 0, 0, 0;
      for p := 0 to |selected|
        invariant michCount == TermCount(modules, selected[..p], "M")
        invariant lentCount == TermCount(modules, selected[..p], "L")
        invariant managementCount == ManagementCount(modules, selected[..p])
      {
        assert selected[..p + 1][..p] == selected[..p];
        var s := selected[p];
        if modules[s].term == "M" {
          michCount := michCount + 1;
        }
        if modules[s].term == "L" {
          lentCount := lentCount + 1;
        }
        if modules[s].code[1] == 'E' {
          managementCount := managementCount + 1;
        }
      }
      assert selected[..|selected|] == selected;
    }

    /** The term quotas, the management quota and the minimum-management
        rule; each only disables modules that are not selected. */
    method ApplyQuotas()
      requires Valid()
      modifies available
      ensures forall k :: 0 <= k < |modules| ==>
                available[k] == (old(available[k]) && !QuotaLocked(modules, selected, k))
    {
      var michCount, lentCount, managementCount := CountSelected();
      if michCount == 5 {
        DisableUnselectedInTerm("M");
      }
      if lentCount == 5 {
        DisableUnselectedInTerm("L");
      }
      if managementCount == 2 {
        DisableUnselectedByCategory(true);
      }
      if |selected| == 9 && managementCount < 1 {
        DisableUnselectedByCategory(false);
      }
    }

    /** Every unselected module of term `t` becomes unavailable. */
    method DisableUnselectedInTerm(t: string)
      requires Valid()
      modifies available
      ensures forall k :: 0 <= k < |modules| ==>
                available[k] == (old(available[k]) && !(modules[k].term == t && k !in selected))
    {
      for k := 0 to |modules|
        invariant forall j :: 0 <= j < |modules| ==>
                    available[j] == (old(available[j]) && !(j < k && modules[j].term == t && j !in selected))
      {
        if modules[k].term == t && k !in selected {
          available[k] := false;
        }
      }
    }

    /** Every unselected module that is a management module (when
        `management` holds) or is not one (otherwise) becomes unavailable. */
    method DisableUnselectedByCategory(management: bool)
      requires Valid()
      modifies available
      ensures forall k :: 0 <= k < |modules| ==>
                available[k] == (old(available[k]) && !(IsManagement(modules[k]) == management && k !in selected))
    {
      for k := 0 to |modules|
        invariant forall j :: 0 <= j < |modules| ==>
                    available[j] == (old(available[j]) &&
                                     !(j < k && IsManagement(modules[j]) == management && j !in selected))
      {
        if (modules[k].code[1] == 'E') == management && k !in selected {
          available[k] := false;
        }
      }
    }

    /** Paired records: for every two records with one code, both take the
        conjunction of their flags. Afterwards each flag is the conjunction of
        the flags of its whole code group as they were before. */
    method LinkPairs()
      requires Valid()
      modifies available
      ensures forall k :: 0 <= k < |modules| ==> available[k] == AllInGroup(modules, old(available[..]), k)
    {
      ghost var before := available[..];
      var n := available.Length;
      for i := 0 to n
        invariant forall k :: 0 <= k < n && available[k] ==> before[k]
        invariant forall k :: 0 <= k < n && AllInGroup(modules, before, k) ==> available[k]
        invariant forall k :: 0 <= k < i && !AllInGroup(modules, before, k) ==> !available[k]
      {
        ghost var cur := available[..];
        LinkStep(modules, before, cur, i);
        LinkWith(i);
        LinkStepKeeps(modules, before, cur, available[..], i);
      }
    }

    /** The inner loop of the pairing for record `i`: each record with `i`'s
        code and `i` itself take the conjunction of their flags, in turn. */
    method LinkWith(i: nat)
      requires Valid() && i < |modules|
      modifies available
      ensures forall k :: 0 <= k < |modules| && available[k] ==> old(available[k])
      ensures forall k :: 0 <= k < |modules| && modules[k].code != modules[i].code ==> available[k] == old(available[k])
      ensures available[i] == AllInGroup(modules, old(available[..]), i)
      ensures forall k :: 0 <= k < |modules| && k != i && modules[k].code == modules[i].code ==>
                available[k] == (old(available[k]) && old(available[i]) &&
                                 forall q :: 0 <= q < k && modules[q].code == modules[i].code ==> old(available[q]))
      ensures AllInGroup(modules, old(available[..]), i) ==>
                forall k :: 0 <= k < |modules| ==> available[k] == old(available[k])
    {
      ghost var cur := available[..];
      var n := available.Length;
      for j := 0 to n
        invariant forall k :: 0 <= k < n && available[k] ==> cur[k]
        invariant forall k :: 0 <= k < n && k != i && (j <= k || modules[k].code != modules[i].code) ==>
                    available[k] == cur[k]
        invariant available[i] == (cur[i] && forall q :: 0 <= q < j && modules[q].code == modules[i].code ==> cur[q])
        invariant AllInGroup(modules, cur, i) ==> forall k :: 0 <= k < n ==> available[k] == cur[k]
        invariant forall k :: 0 <= k < j && k != i && modules[k].code == modules[i].code ==>
                    available[k] == (cur[k] && cur[i] && forall q :: 0 <= q < k && modules[q].code == modules[i].code ==> cur[q])
      {
        if modules[j].code == modules[i].code {
          available[j] := available[j] && available[i];
          available[i] := available[j];
        }
      }
    }

    /** One eligibility pass over all areas, on the codes of the selection. */
    method Qualifications()
      requires Valid()
      modifies eligible
      ensures forall a :: 0 <= a < |areas| ==>
                eligible[a] == Eligible(RuleFor(areas[a].name), areas[a].codes, CodesOf(modules, selected))
      ensures unchanged(available)
    {
      var scodes := CodesOf(modules, selected);
      for a := 0 to |areas|
        invariant forall b :: 0 <= b < a ==>
                    eligible[b] == Eligible(RuleFor(areas[b].name), areas[b].codes, scodes)
      {
        eligible[a] := Evaluate(RuleFor(areas[a].name), areas[a].codes, scodes);
      }
    }
  }
}
