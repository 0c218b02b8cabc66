/** The static records of the module catalogue and the small predicates that
    every rule shares. A selection is a sequence of indices into the
    catalogue, so two records are "the same module" exactly when their
    indices are equal. */
module Catalog {

  /** One row of the module list: code, display name, term ("M" for
      Michaelmas, "L" for Lent), the label of the set it belongs to (`setLabel`, a string as read from the file) and the code of its
      prerequisite ("" when there is none). The derived `available` flag is
      kept beside the catalogue, in `Session.Planner.available`. */
  datatype Module = Module(code: string, name: string, term: string, setLabel: string, prerequisite: string)

  /** One engineering area: its name, its description and the module codes
      its rule looks at. The derived `eligible` flag is kept in
      `Session.Planner.eligible`. */
  datatype Area = Area(name: string, desc: string, codes: seq<string>)

  /** Every code has a second character, which the management test reads. */
  predicate WellFormed(cat: seq<Module>)
  {
    forall i :: 0 <= i < |cat| ==> |cat[i].code| >= 2
  }

  /** Management modules (groups E) carry an 'E' as the second character of their code. */
  predicate IsManagement(m: Module)
    requires |m.code| >= 2
  {
    m.code[1] == 'E'
  }

  /** Two modules compete for one place when they share both term and set. */
  predicate SameSlot(a: Module, b: Module)
  {
    a.term == b.term && a.setLabel == b.setLabel
  }

  /** Every selected index names a record of a catalogue with `n` records. */
  predicate InRange(sel: seq<nat>, n: nat)
  {
    forall p :: 0 <= p < |sel| ==> sel[p] < n
  }

  /** No module is selected twice. */
  predicate NoDup(sel: seq<nat>)
  {
    forall i, j :: 0 <= i < j < |sel| ==> sel[i] != sel[j]
  }

  /** The codes of the selected records, one entry per record and in
      selection order: a paired code that is selected appears twice. */
  function CodesOf(cat: seq<Module>, sel: seq<nat>): (r: seq<string>)
    requires InRange(sel, |cat|)
    ensures |r| == |sel|
    ensures forall p :: 0 <= p < |sel| ==> r[p] == cat[sel[p]].code
  {
    seq(|sel|, p requires 0 <= p < |sel| => cat[sel[p]].code)
  }

  /** A code appears among the selected codes exactly when some selected
      record carries it. */
  lemma CodesOfMembership(cat: seq<Module>, sel: seq<nat>, c: string)
    requires InRange(sel, |cat|)
    ensures c in CodesOf(cat, sel) <==> exists s :: s in sel && cat[s].code == c
  {
    var r := CodesOf(cat, sel);
    if c in r {
      var p :| 0 <= p < |r| && r[p] == c;
      assert sel[p] in sel;
    }
    if exists s :: s in sel && cat[s].code == c {
      var s :| s in sel && cat[s].code == c;
      var p :| 0 <= p < |sel| && sel[p] == s;
      assert r[p] == c;
    }
  }
}
