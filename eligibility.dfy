/** The eligibility rules of the engineering areas. Each area's rule is
    chosen by its name; every count runs over the codes of the selected
    records, one entry per record, so a paired code that is selected counts
    twice. */
module Eligibility {

  /** The kinds of area rule.
      - BothAnchors: both anchor codes selected and at least `others` further
        listed codes selected (the anchors themselves not counted);
      - AllCodes: every listed code selected;
      - EitherAnchor: one of the anchor codes selected and at least `others`
        listed codes selected, neither anchor counted;
      - WithSubList: at least `min` listed codes and at least `minSub` codes
        of the fixed list `sub` selected;
      - AtLeast: at least `min` listed codes selected. */
  datatype Rule =
    | BothAnchors(a: string, b: string, others: nat)
    | AllCodes
    | EitherAnchor(a: string, b: string, others: nat)
    | WithSubList(sub: seq<string>, min: nat, minSub: nat)
    | AtLeast(min: nat)

  const Aerospace := "Aerospace and Aerothermal Engineering"
  const ElectricalElectronic := "Electrical and Electronic Engineering"
  const Instrumentation := "Instrumentation and Control"
  const Bioengineering := "Bioengineering"
  const InformationSciences := "Electrical and Information Sciences"
  const BioModules := ["3G1", "3G2", "3G3", "3G4", "3G5"]

  /** The rule of the area called `name`. */
  function RuleFor(name: string): Rule
  {
    if name == Aerospace then BothAnchors("3A1", "3A3", 2)
    else if name == ElectricalElectronic then AllCodes
    else if name == Instrumentation then EitherAnchor("3F1", "3F2", 5)
    else if name == Bioengineering then WithSubList(BioModules, 6, 3)
    else if name == InformationSciences then AtLeast(8)
    else AtLeast(6)
  }

  /** A selected code counts towards a list when it is on the list and not
      one of the codes to skip. */
  predicate Counted(sc: string, codes: seq<string>, skip: seq<string>)
  {
    sc !in skip && sc in codes
  }

  /** How many entries of `scodes` count towards `codes`, skipping `skip`. */
  function CountListed(scodes: seq<string>, codes: seq<string>, skip: seq<string>): (r: nat)
    ensures r <= |scodes|
    ensures r == 0 <==> forall p :: 0 <= p < |scodes| ==> !Counted(scodes[p], codes, skip)
  {
    if scodes == [] then 0
    else
      var front := scodes[..|scodes| - 1];
      assert forall p :: 0 <= p < |front| ==> front[p] == scodes[p];
      CountListed(front, codes, skip) + (if Counted(scodes[|scodes| - 1], codes, skip) then 1 else 0)
  }

  /** Whether a selection with codes `scodes` satisfies `rule` for an area
      listing `codes`. For the anchored kinds the count is left at zero when
      the anchors are missing. */
  predicate Eligible(rule: Rule, codes: seq<string>, scodes: seq<string>)
  {
    match rule
    case BothAnchors(a, b, others) =>
      (if a in scodes && b in scodes then CountListed(scodes, codes, [a, b]) else 0) >= others
    case AllCodes =>
      forall c :: c in codes ==> c in scodes
    case EitherAnchor(a, b, others) =>
      (if a in scodes || b in scodes then CountListed(scodes, codes, [a, b]) else 0) >= others
    case WithSubList(sub, min, minSub) =>
      CountListed(scodes, codes, []) >= min && CountListed(scodes, sub, []) >= minSub
    case AtLeast(min) =>
      CountListed(scodes, codes, []) >= min
  }

  /** The counting loop shared by the rules: one pass over the selected
      codes, counting the entries on `codes` that are not on `skip`. */
  method CountEntries(scodes: seq<string>, codes: seq<string>, skip: seq<string>) returns (count: nat)
    ensures count == CountListed(scodes, codes, skip)
  {
    count := 0;
    for p := 0 to |scodes|
      invariant count == CountListed(scodes[..p], codes, skip)
    {
      assert scodes[..p + 1][..p] == scodes[..p];
      var sc := scodes[p];
      if sc !in skip && sc in codes {
        count := count + 1;
      }
    }
    assert scodes[..|scodes|] == scodes;
  }

  /** The Bioengineering loop: two counters in one pass, for the area's
      codes and for the list `sub`. */
  method CountBoth(scodes: seq<string>, codes: seq<string>, sub: seq<string>) returns (count: nat, count2: nat)
    ensures count == CountListed(scodes, codes, [])
    ensures count2 == CountListed(scodes, sub, [])
  {
    count, count2 := 0, 0;
    for p := 0 to |scodes|
      invariant count == CountListed(scodes[..p], codes, [])
      invariant count2 == CountListed(scodes[..p], sub, [])
    {
      assert scodes[..p + 1][..p] == scodes[..p];
      var sc := scodes[p];
      if sc in codes {
        count := count + 1;
      }
      if sc in sub {
        count2 := count2 + 1;
      }
    }
    assert scodes[..|scodes|] == scodes;
  }

  /** The evaluation of one area: the anchored kinds count only when their
      anchors are selected, and otherwise leave the count at zero. */
  method Evaluate(rule: Rule, codes: seq<string>, scodes: seq<string>) returns (eligible: bool)
    ensures eligible == Eligible(rule, codes, scodes)
  {
    eligible := false;
    var count: nat := 0;
    match rule {
      case BothAnchors(a, b, others) =>
        if a in scodes && b in scodes {
          count := CountEntries(scodes, codes, [a, b]);
        }
        if count >= others {
          eligible := true;
        }
      case AllCodes =>
        eligible := forall c :: c in codes ==> c in scodes;
      case EitherAnchor(a, b, others) =>
        if a in scodes || b in scodes {
          count := CountEntries(scodes, codes, [a, b]);
        }
        if count >= others {
          eligible := true;
        }
      case WithSubList(sub, min, minSub) =>
        var count2;
        count, count2 := CountBoth(scodes, codes, sub);
        if count >= min && count2 >= minSub {
          eligible := true;
        }
      case AtLeast(min) =>
        count := CountEntries(scodes, codes, []);
        eligible := count >= min;
    }
  }

  /** Counting is additive over concatenation. */
  lemma {:induction false} CountListedAppend(s: seq<string>, t: seq<string>, codes: seq<string>, skip: seq<string>)
    ensures CountListed(s + t, codes, skip) == CountListed(s, codes, skip) + CountListed(t, codes, skip)
  {
    if t == [] {
      assert s + t == s;
    } else {
      var t' := t[..|t| - 1];
      assert (s + t)[..|s + t| - 1] == s + t';
      CountListedAppend(s, t', codes, skip);
    }
  }

  /** Taking one entry out of the middle of a run takes its share out of
      the count. */
  lemma CountListedSplit(t1: seq<string>, x: string, t2: seq<string>, codes: seq<string>, skip: seq<string>)
    ensures CountListed(t1 + [x] + t2, codes, skip) ==
            CountListed(t1 + t2, codes, skip) + (if Counted(x, codes, skip) then 1 else 0)
  {
    CountListedAppend(t1, t2, codes, skip);
    CountListedAppend(t1, [x], codes, skip);
    CountListedAppend(t1 + [x], t2, codes, skip);
    assert [x][..0] == [];
  }

  /** Two runs with the same entries still have the same entries once one
      copy of `x` is taken out of each. */
  lemma MultisetTakeOut(s: seq<string>, x: string, t1: seq<string>, t2: seq<string>)
    requires multiset(s + [x]) == multiset(t1 + [x] + t2)
    ensures multiset(s) == multiset(t1 + t2)
  {
    calc {
      multiset(s);
      multiset(s + [x]) - multiset{x};
      multiset(t1 + [x] + t2) - multiset{x};
      multiset(t1 + t2);
    }
  }

  /** The order of the selection does not matter to a count. */
  lemma {:induction false} CountListedPermutation(s: seq<string>, t: seq<string>, codes: seq<string>, skip: seq<string>)
    requires multiset(s) == multiset(t)
    ensures CountListed(s, codes, skip) == CountListed(t, codes, skip)
    decreases |s|
  {
    if s == [] {
      assert |t| == |multiset(t)| == 0;
    } else {
      var s' := s[..|s| - 1];
      var x := s[|s| - 1];
      assert s == s' + [x];
      assert x in multiset(t);
      var i :| 0 <= i < |t| && t[i] == x;
      var t1, t2 := t[..i], t[i + 1..];
      assert t == t1 + [x] + t2;
      MultisetTakeOut(s', x, t1, t2);
      CountListedPermutation(s', t1 + t2, codes, skip);
      CountListedSplit(t1, x, t2, codes, skip);
    }
  }

  /** A selection's eligibility for an area does not depend on the order in
      which the modules were selected. */
  lemma EligibleOrderIndependent(rule: Rule, codes: seq<string>, s: seq<string>, t: seq<string>)
    requires multiset(s) == multiset(t)
    ensures Eligible(rule, codes, s) == Eligible(rule, codes, t)
  {
    assert forall c :: c in s <==> c in t by {
      forall c ensures c in s <==> c in t {
        assert c in s <==> c in multiset(s);
        assert c in t <==> c in multiset(t);
      }
    }
    match rule
    case BothAnchors(a, b, _) => CountListedPermutation(s, t, codes, [a, b]);
    case AllCodes =>
    case EitherAnchor(a, b, _) => CountListedPermutation(s, t, codes, [a, b]);
    case WithSubList(sub, _, _) =>
      CountListedPermutation(s, t, codes, []);
      CountListedPermutation(s, t, sub, []);
    case AtLeast(_) => CountListedPermutation(s, t, codes, []);
  }

  /** Selecting more modules never takes an area's eligibility away. */
  lemma EligibleMonotone(rule: Rule, codes: seq<string>, s: seq<string>, extra: seq<string>)
    ensures Eligible(rule, codes, s) ==> Eligible(rule, codes, s + extra)
  {
    assert forall c :: c in s ==> c in s + extra;
    match rule
    case BothAnchors(a, b, _) => CountListedAppend(s, extra, codes, [a, b]);
    case AllCodes =>
    case EitherAnchor(a, b, _) => CountListedAppend(s, extra, codes, [a, b]);
    case WithSubList(sub, _, _) =>
      CountListedAppend(s, extra, codes, []);
      CountListedAppend(s, extra, sub, []);
    case AtLeast(_) => CountListedAppend(s, extra, codes, []);
  }

  /** Both halves of a selected paired module count: the same code entered
      twice adds two to a count it takes part in. */
  lemma PairedCodeCountsTwice(s: seq<string>, c: string, codes: seq<string>, skip: seq<string>)
    requires Counted(c, codes, skip)
    ensures CountListed(s + [c, c], codes, skip) == CountListed(s, codes, skip) + 2
  {
    CountListedAppend(s, [c, c], codes, skip);
    assert [c, c][..1] == [c];
  }

  /** Aerospace and Aerothermal Engineering: both 3A1 and 3A3, and two more
      listed codes. Instrumentation and Control: 3F1 or 3F2, and five more
      listed codes, neither anchor counted even when only one is selected. */
  lemma AnchoredAreaRules(codes: seq<string>, s: seq<string>)
    ensures Eligible(RuleFor(Aerospace), codes, s) <==>
              "3A1" in s && "3A3" in s && CountListed(s, codes, ["3A1", "3A3"]) >= 2
    ensures Eligible(RuleFor(Instrumentation), codes, s) <==>
              ("3F1" in s || "3F2" in s) && CountListed(s, codes, ["3F1", "3F2"]) >= 5
  {
  }

  /** Electrical and Electronic Engineering needs every listed code;
      Bioengineering six listed codes and three of 3G1 to 3G5; Electrical
      and Information Sciences eight listed codes; any other area six. */
  lemma ThresholdAreaRules(name: string, codes: seq<string>, s: seq<string>)
    ensures name == ElectricalElectronic ==>
              (Eligible(RuleFor(name), codes, s) <==> forall c :: c in codes ==> c in s)
    ensures name == Bioengineering ==>
              (Eligible(RuleFor(name), codes, s) <==>
                 CountListed(s, codes, []) >= 6 && CountListed(s, BioModules, []) >= 3)
    ensures name == InformationSciences ==>
              (Eligible(RuleFor(name), codes, s) <==> CountListed(s, codes, []) >= 8)
    ensures name !in {Aerospace, ElectricalElectronic, Instrumentation, Bioengineering, InformationSciences} ==>
              (Eligible(RuleFor(name), codes, s) <==> CountListed(s, codes, []) >= 6)
  {
  }

  /** Two different codes that are both selected and both on a list give a
      count of at least two. */
  lemma {:induction false} TwoPresentCountTwo(s: seq<string>, a: string, b: string, list: seq<string>)
    requires a != b && a in s && b in s && a in list && b in list
    ensures CountListed(s, list, []) >= 2
  {
    var i :| 0 <= i < |s| && s[i] == a;
    var s1, s2 := s[..i], s[i + 1..];
    assert s == s1 + [a] + s2;
    CountListedAppend(s1 + [a], s2, list, []);
    CountListedAppend(s1, [a], list, []);
    assert [a][..0] == [];
    assert b in s1 || b in s2;
    if b in s1 {
      var j :| 0 <= j < |s1| && s1[j] == b;
      assert CountListed(s1, list, []) != 0;
    } else {
      var j :| 0 <= j < |s2| && s2[j] == b;
      assert CountListed(s2, list, []) != 0;
    }
  }

  /** Entries on the skip list are never counted, so a count plus the number
      of skipped entries is at most the length of the selection. */
  lemma {:induction false} CountWithSkipBound(s: seq<string>, codes: seq<string>, skip: seq<string>)
    ensures CountListed(s, codes, skip) + CountListed(s, skip, []) <= |s|
  {
    if s != [] {
      var front := s[..|s| - 1];
      CountWithSkipBound(front, codes, skip);
    }
  }

  /** How many modules each area's rule needs selected at the least. */
  lemma EligibleNeedsSelections(name: string, codes: seq<string>, s: seq<string>)
    requires Eligible(RuleFor(name), codes, s)
    ensures name == Aerospace ==> |s| >= 4
    ensures name == Instrumentation ==> |s| >= 6
    ensures name != ElectricalElectronic && name != Aerospace && name != Instrumentation ==> |s| >= 6
    ensures name == InformationSciences ==> |s| >= 8
  {
    if name == Aerospace {
      CountWithSkipBound(s, codes, ["3A1", "3A3"]);
      TwoPresentCountTwo(s, "3A1", "3A3", ["3A1", "3A3"]);
    } else if name == Instrumentation {
      CountWithSkipBound(s, codes, ["3F1", "3F2"]);
      var a := if "3F1" in s then "3F1" else "3F2";
      assert CountListed(s, ["3F1", "3F2"], []) != 0 by {
        var i :| 0 <= i < |s| && s[i] == a;
        assert Counted(s[i], ["3F1", "3F2"], []);
      }
    }
  }
}
