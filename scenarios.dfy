/** Small catalogues on which the rules show their less obvious sides: a
    refresh is not idempotent, a pressed paired module can lock itself, the
    term quota counts records and fires only at exactly five, and paired
    codes count twice towards an area. */
module Scenarios {
  import opened Catalog
  import opened Selection
  import opened Propagation
  import opened Eligibility
  import opened Session

  /** A chain of prerequisites: "3A4" needs "3A2" and "3A5" needs "3A4". */
  function Chain(): seq<Module>
  {
    [Module("3A2", "Base", "M", "1", ""),
     Module("3A4", "Middle", "L", "1", "3A2"),
     Module("3A5", "Top", "M", "2", "3A4")]
  }

  /** With "3A2" deselected, one pass evicts "3A4" but keeps "3A5", whose
      prerequisite was still in the snapshot. */
  lemma EvictionDoesNotCascade()
    ensures 1 !in Survivors(Chain(), [1, 2]) && 2 in Survivors(Chain(), [1, 2])
  {
    var cat := Chain();
    assert CodesOf(cat, [1, 2]) == ["3A4", "3A5"];
    assert !PrereqMet(cat[1], ["3A4", "3A5"]);
    assert PrereqMet(cat[2], ["3A4", "3A5"]);
  }

  /** The next pass, from what the first left, evicts "3A5" too: refreshing
      twice is not the same as refreshing once. */
  lemma SecondPassEvictsMore()
    ensures Survivors(Chain(), [2]) == []
  {
    var cat := Chain();
    assert CodesOf(cat, [2]) == ["3A5"];
    assert !PrereqMet(cat[2], ["3A5"]);
  }

  /** A catalogue of one paired module whose two records share term and
      set and need no prerequisite. The halves carry different names, so the
      records are two modules under value equality as well. */
  predicate SameSlotPair(cat: seq<Module>)
  {
    |cat| == 2 && WellFormed(cat) && cat[0].code == cat[1].code && cat[0].name != cat[1].name &&
    SameSlot(cat[0], cat[1]) &&
    cat[0].prerequisite == "" && cat[1].prerequisite == ""
  }

  /** Pressing the pair selects both records; the set rule then disables
      each record because of the other, so a selected module ends up
      unavailable. */
  lemma PairLocksItself(cat: seq<Module>)
    requires SameSlotPair(cat)
    ensures Toggled(cat, [], cat[0].code, 2) == [0, 1]
    ensures Survivors(cat, [0, 1]) == [0, 1]
    ensures !Available(cat, [0, 1], 0) && !Available(cat, [0, 1], 1)
  {
    assert Toggled(cat, [], cat[0].code, 1) == [0];
    assert Toggled(cat, [], cat[0].code, 2) == [0, 1];
    SurvivorsKeepAll(cat, [0, 1]);
    SetExclusionRule(cat, [0, 1], 1, 0);
    SetExclusionRule(cat, [0, 1], 0, 1);
  }

  /** The same pair driven through a session: one press leaves both records
      selected and both disabled. */
  method PressLockedPair(cat: seq<Module>) returns (sel: seq<nat>, flags: seq<bool>)
    requires SameSlotPair(cat)
    ensures sel == [0, 1] && flags == [false, false]
  {
    PairLocksItself(cat);
    var p := new Planner(cat, []);
    p.Toggle(0);
    sel := p.selected;
    flags := p.available[..];
  }

  /** Four Michaelmas singles, a Michaelmas pair in two sets and one more
      Michaelmas single. */
  function MichaelmasPlan(): seq<Module>
  {
    [Module("3C1", "One", "M", "1", ""),
     Module("3C2", "Two", "M", "2", ""),
     Module("3C3", "Three", "M", "3", ""),
     Module("3C4", "Four", "M", "4", ""),
     Module("3C5", "Five a", "M", "5", ""),
     Module("3C5", "Five b", "M", "6", ""),
     Module("3C7", "Seven", "M", "7", "")]
  }

  /** With four singles selected, the press visits the singles first and
      leaves them alone. */
  lemma PairVisitFour()
    ensures Toggled(MichaelmasPlan(), [0, 1, 2, 3], "3C5", 4) == [0, 1, 2, 3]
  {
    ToggledElsewhere(MichaelmasPlan(), [0, 1, 2, 3], "3C5", 4);
  }

  /** Then it appends the first record of the pair. */
  lemma PairVisitFive()
    ensures Toggled(MichaelmasPlan(), [0, 1, 2, 3], "3C5", 5) == [0, 1, 2, 3, 4]
  {
    PairVisitFour();
  }

  /** Then the second record of the pair. */
  lemma PairVisitSix()
    ensures Toggled(MichaelmasPlan(), [0, 1, 2, 3], "3C5", 6) == [0, 1, 2, 3, 4, 5]
  {
    PairVisitFive();
  }

  /** The last single has another code, so the press appends both records of
      the pair and nothing else. */
  lemma PairJoinsMichaelmas()
    ensures Toggled(MichaelmasPlan(), [0, 1, 2, 3], "3C5", 7) == [0, 1, 2, 3, 4, 5]
  {
    PairVisitSix();
  }

  /** That brings the Michaelmas count from four straight to six records. */
  lemma SixMichaelmas()
    ensures TermCount(MichaelmasPlan(), [0, 1, 2, 3, 4, 5], "M") == 6
    ensures ManagementCount(MichaelmasPlan(), [0, 1, 2, 3, 4, 5]) == 0
  {
    var cat := MichaelmasPlan();
    TermCountAll(cat, [0, 1, 2, 3, 4, 5], "M");
  }

  /** The seventh Michaelmas module has a set of its own and no
      prerequisite, and no other record has its code. */
  lemma SeventhIsFree()
    ensures !SetExcluded(MichaelmasPlan(), [0, 1, 2, 3, 4, 5], 6)
    ensures forall j :: 0 <= j < 6 ==> MichaelmasPlan()[j].code != MichaelmasPlan()[6].code
  {
  }

  /** No Michaelmas module has a prerequisite, so nothing is evicted. */
  lemma MichaelmasKept()
    ensures Survivors(MichaelmasPlan(), [0, 1, 2, 3, 4, 5]) == [0, 1, 2, 3, 4, 5]
  {
    SurvivorsKeepAll(MichaelmasPlan(), [0, 1, 2, 3, 4, 5]);
  }

  /** No quota locks the seventh Michaelmas module: six is not five. */
  lemma SeventhNotLocked()
    ensures !QuotaLocked(MichaelmasPlan(), [0, 1, 2, 3, 4, 5], 6)
  {
    SixMichaelmas();
  }

  /** The quota tests for exactly five, so the seventh Michaelmas module
      stays available with six selected. */
  lemma TermQuotaSkipsPastFive()
    ensures Available(MichaelmasPlan(), [0, 1, 2, 3, 4, 5], 6)
  {
    MichaelmasKept();
    SeventhIsFree();
    SeventhNotLocked();
    UnpairedAvailable(MichaelmasPlan(), [0, 1, 2, 3, 4, 5], 6);
  }

  /** An Aerospace pick: both anchors plus one selected pair, whose code
      counts once per record. */
  lemma PairCountsTwiceForAerospace()
    ensures Eligible(RuleFor(Aerospace), ["3A1", "3A3", "3A5", "3A6"], ["3A1", "3A3", "3A5", "3A5"])
    ensures !Eligible(RuleFor(Aerospace), ["3A1", "3A3", "3A5", "3A6"], ["3A1", "3A3", "3A5"])
  {
    assert CountListed(["3A1", "3A3", "3A5", "3A5"], ["3A1", "3A3", "3A5", "3A6"], ["3A1", "3A3"]) == 2;
    assert CountListed(["3A1", "3A3", "3A5"], ["3A1", "3A3", "3A5", "3A6"], ["3A1", "3A3"]) == 1;
  }

  /** Electrical and Electronic Engineering wants every listed code. */
  lemma AllCodesNeedsEveryCode()
    ensures Eligible(RuleFor(ElectricalElectronic), ["3B1", "3B2"], ["3B2", "3B1"])
    ensures !Eligible(RuleFor(ElectricalElectronic), ["3B1", "3B2"], ["3B1"])
  {
    assert "3B2" !in ["3B1"];
  }
}
