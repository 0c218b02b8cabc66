/** The list of selected modules and the two ways it changes: a press on a
    module button toggles every record that shares the pressed code, and the
    prerequisite rule takes records out. Python's `list.remove` takes out the
    first occurrence; `Remove` models exactly that. */
module Selection {
  import opened Catalog

  /** `s` with its first occurrence of `x` taken out (`list.remove`). Every
      caller tests membership first; on an absent element `list.remove`
      raises, so the model does not define that case. */
  function Remove(s: seq<nat>, x: nat): (r: seq<nat>)
    requires x in s
    ensures |r| == |s| - 1
  {
    if s[0] == x then s[1..]
    else
      assert x in s[1..];
      [s[0]] + Remove(s[1..], x)
  }

  /** The position of the first occurrence of `x` in `s`. */
  function IndexOf(s: seq<nat>, x: nat): (i: nat)
    requires x in s
    ensures i < |s| && s[i] == x && x !in s[..i]
  {
    if s[0] == x then 0
    else
      assert x in s[1..];
      var j := IndexOf(s[1..], x);
      assert s[..j + 1] == [s[0]] + s[1..][..j];
      j + 1
  }

  /** `Remove` takes out the first occurrence and keeps everything else in
      order. */
  lemma {:induction false} RemoveFirst(s: seq<nat>, x: nat)
    requires x in s
    ensures Remove(s, x) == s[..IndexOf(s, x)] + s[IndexOf(s, x) + 1..]
  {
    if s[0] != x {
      var t := s[1..];
      assert x in t;
      RemoveFirst(t, x);
      var j := IndexOf(t, x);
      assert s[..j + 1] == [s[0]] + t[..j];
      assert s[j + 2..] == t[j + 1..];
    }
  }

  /** Without duplicates, `Remove` takes out every occurrence of `x` and
      keeps the rest free of duplicates. */
  lemma {:induction false} RemoveNoDup(s: seq<nat>, x: nat)
    requires NoDup(s) && x in s
    ensures NoDup(Remove(s, x))
    ensures forall y :: y in Remove(s, x) <==> y in s && y != x
  {
    assert s == [s[0]] + s[1..];
    NoDupCons(s[0], s[1..]);
    if s[0] != x {
      assert x in s[1..];
      RemoveNoDup(s[1..], x);
      NoDupCons(s[0], Remove(s[1..], x));
    }
  }

  /** A sequence headed by `x` has no duplicates exactly when its tail has
      none and does not hold `x`. */
  lemma NoDupCons(x: nat, t: seq<nat>)
    ensures NoDup([x] + t) <==> x !in t && NoDup(t)
  {
    var s := [x] + t;
    assert forall j :: 0 <= j < |t| ==> s[j + 1] == t[j];
    if NoDup(s) {
      forall j | 0 <= j < |t|
        ensures t[j] != x
      {
        assert s[0] != s[j + 1];
      }
      forall i, j | 0 <= i < j < |t|
        ensures t[i] != t[j]
      {
        assert s[i + 1] != s[j + 1];
      }
    }
    if x !in t && NoDup(t) {
      forall i, j | 0 <= i < j < |s|
        ensures s[i] != s[j]
      {
        if i == 0 {
          assert s[j] == t[j - 1];
        } else {
          assert s[i] == t[i - 1];
        }
      }
    }
  }

  /** A sequence ending in `x` has no duplicates exactly when its front has
      none and does not hold `x`. */
  lemma NoDupSnoc(t: seq<nat>, x: nat)
    ensures NoDup(t + [x]) <==> x !in t && NoDup(t)
  {
    var s := t + [x];
    assert forall j :: 0 <= j < |t| ==> s[j] == t[j];
    if NoDup(s) {
      forall j | 0 <= j < |t|
        ensures t[j] != x
      {
        assert s[j] != s[|t|];
      }
      forall i, j | 0 <= i < j < |t|
        ensures t[i] != t[j]
      {
        assert s[i] != s[j];
      }
    }
    if x !in t && NoDup(t) {
      forall i, j | 0 <= i < j < |s|
        ensures s[i] != s[j]
      {
        if j == |t| {
          assert s[i] == t[i];
        }
      }
    }
  }

  /** Every element of `a` is in `b`, so `a` is in range when `b` is. */
  lemma InRangeSubset(a: seq<nat>, b: seq<nat>, n: nat)
    requires forall y :: y in a ==> y in b
    ensures InRange(b, n) ==> InRange(a, n)
  {
    if InRange(b, n) {
      forall p | 0 <= p < |a|
        ensures a[p] < n
      {
        assert a[p] in b;
      }
    }
  }

  /** One visited record of a press: `x` leaves the selection when it is in
      it and joins it at the end otherwise. */
  function Flip(s: seq<nat>, x: nat): (r: seq<nat>)
    requires NoDup(s)
    ensures NoDup(r)
    ensures forall y :: y in r <==> if y == x then x !in s else y in s
  {
    if x in s then
      RemoveNoDup(s, x);
      Remove(s, x)
    else
      NoDupSnoc(s, x);
      s + [x]
  }

  /** The selection after the first `k` records of the catalogue have been
      visited by a press on a button whose module has code `code`. */
  function Toggled(cat: seq<Module>, sel: seq<nat>, code: string, k: nat): (r: seq<nat>)
    requires k <= |cat| && NoDup(sel)
    ensures NoDup(r)
    ensures forall x: nat :: x in r <==> if x < k && cat[x].code == code then x !in sel else x in sel
    ensures InRange(sel, |cat|) ==> InRange(r, |cat|)
  {
    if k == 0 then sel
    else
      var prev := Toggled(cat, sel, code, k - 1);
      if cat[k - 1].code != code then prev
      else
        var r := Flip(prev, k - 1);
        InRangeSubset(r, prev + [k - 1], |cat|);
        r
  }

  /** Records with another code leave the selection as it is, order
      included. */
  lemma {:induction false} ToggledElsewhere(cat: seq<Module>, sel: seq<nat>, code: string, k: nat)
    requires k <= |cat| && NoDup(sel)
    requires forall x :: 0 <= x < k ==> cat[x].code != code
    ensures Toggled(cat, sel, code, k) == sel
  {
    if k > 0 {
      ToggledElsewhere(cat, sel, code, k - 1);
    }
  }

  /** Pressing the same button twice with nothing in between gives back the
      same membership (the re-added records go to the end of the list). */
  lemma ToggleTwice(cat: seq<Module>, sel: seq<nat>, code: string)
    requires NoDup(sel)
    ensures forall x: nat :: x in Toggled(cat, Toggled(cat, sel, code, |cat|), code, |cat|) <==> x in sel
  {
  }
}
