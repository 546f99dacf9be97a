/** Median imputation of the impressions column (crawl.py lines 84-87). The column is a sequence of
    optional integers and the categories a parallel sequence; pandas' NaN is `None`. */
module Impute {
  import opened Wrappers
  import opened Seqs
  import opened Stats

  /** The present values, in row order (pandas statistics skip NaN). */
  function Present(vals: seq<Option<int>>): (r: seq<int>)
    ensures |r| <= |vals|
  {
    if vals == [] then []
    else (if vals[0].Some? then [vals[0].value] else []) + Present(vals[1..])
  }

  /** A value is present exactly when some row holds it. */
  lemma {:induction false} PresentMembers(vals: seq<Option<int>>, x: int)
    ensures x in Present(vals) <==> exists i :: 0 <= i < |vals| && vals[i] == Some(x)
  {
    if vals != [] {
      PresentMembers(vals[1..], x);
      if exists i :: 0 <= i < |vals| && vals[i] == Some(x) {
        var i :| 0 <= i < |vals| && vals[i] == Some(x);
        if i > 0 {
          assert vals[1..][i - 1] == Some(x);
        }
      }
      if exists i :: 0 <= i < |vals[1..]| && vals[1..][i] == Some(x) {
        var i :| 0 <= i < |vals[1..]| && vals[1..][i] == Some(x);
        assert vals[i + 1] == Some(x);
      }
    }
  }

  /** The column restricted to the rows of category c: the other rows read as missing. */
  function InGroup<C(==)>(vals: seq<Option<int>>, cats: seq<C>, c: C): (r: seq<Option<int>>)
    requires |vals| == |cats|
    ensures |r| == |vals|
  {
    seq(|vals|, i requires 0 <= i < |vals| => if cats[i] == c then vals[i] else None)
  }

  /** `int(df['impressions'].median(skipna=True))`; `None` where pandas' median is NaN, which
      makes `int()` raise. */
  function OverallMedian(vals: seq<Option<int>>): (r: Option<int>)
    ensures r.None? <==> forall i :: 0 <= i < |vals| ==> vals[i].None?
  {
    var present := Present(vals);
    if present != [] then
      PresentMembers(vals, present[0]);
      Some(IntMedian(present))
    else
      assert forall i :: 0 <= i < |vals| ==> vals[i].None? by {
        forall i | 0 <= i < |vals| ensures vals[i].None? {
          if vals[i].Some? {
            PresentMembers(vals, vals[i].value);
          }
        }
      }
      None
  }

  /** `int(x.median())` of the group of category c, or `None` when the group has no present value. */
  function GroupMedian<C(==)>(vals: seq<Option<int>>, cats: seq<C>, c: C): Option<int>
    requires |vals| == |cats|
  {
    OverallMedian(InGroup(vals, cats, c))
  }

  /** `fillna(fill)` on one cell. */
  function FillCell(v: Option<int>, fill: int): Option<int>
  {
    if v.Some? then v else Some(fill)
  }

  /** The value of m, or d when there is none. */
  function OrElse(m: Option<int>, d: int): int
  {
    match m
    case Some(x) => x
    case None => d
  }

  /** The value line 85 fills into each row: the row's category median, or the overall median
      when the category has no present value. */
  function GroupFillValues<C(==)>(vals: seq<Option<int>>, cats: seq<C>, overall: int): (r: seq<int>)
    requires |vals| == |cats|
    ensures |r| == |vals|
  {
    seq(|vals|, i requires 0 <= i < |vals| => OrElse(GroupMedian(vals, cats, cats[i]), overall))
  }

  /** `fillna` with one fill value per row. */
  function FillEach(vals: seq<Option<int>>, fills: seq<int>): (r: seq<Option<int>>)
    requires |fills| == |vals|
    ensures |r| == |vals|
  {
    seq(|vals|, i requires 0 <= i < |vals| => FillCell(vals[i], fills[i]))
  }

  /** Line 85-86: within each category, a missing value becomes the category's median, or the
      overall median when the category has no present value. */
  function GroupFill<C(==)>(vals: seq<Option<int>>, cats: seq<C>, overall: int): (r: seq<Option<int>>)
    requires |vals| == |cats|
    ensures |r| == |vals|
  {
    FillEach(vals, GroupFillValues(vals, cats, overall))
  }

  /** Line 87: `fillna(v)`. */
  function FillWith(vals: seq<Option<int>>, v: int): (r: seq<Option<int>>)
    ensures |r| == |vals|
  {
    FillEach(vals, seq(|vals|, _ => v))
  }

  /** The impressions column after lines 84-87, or `None` where line 84 raises: that happens
      exactly when no value of the column is present. Otherwise nothing is missing afterwards and
      the present values are unchanged. */
  function Imputed<C(==)>(vals: seq<Option<int>>, cats: seq<C>): (r: Option<seq<Option<int>>>)
    requires |vals| == |cats|
    ensures r.None? <==> forall i :: 0 <= i < |vals| ==> vals[i].None?
    ensures r.Some? ==> |r.value| == |vals|
    ensures r.Some? ==> forall i :: 0 <= i < |vals| ==> r.value[i].Some? && (vals[i].Some? ==> r.value[i] == vals[i])
  {
    match OverallMedian(vals)
    case None => None
    case Some(overall) => Some(FillWith(GroupFill(vals, cats, overall), overall))
  }

  /** A missing value of category c holds c's `int(median)` when some row of c has a value, and
      the overall `int(median)` when no row of c has one. */
  lemma ImputedValues<C>(vals: seq<Option<int>>, cats: seq<C>, i: nat)
    requires |vals| == |cats| && i < |vals|
    requires Imputed(vals, cats).Some?
    ensures var r := Imputed(vals, cats).value;
      (vals[i].None? && (exists j :: 0 <= j < |vals| && cats[j] == cats[i] && vals[j].Some?) ==>
        r[i] == GroupMedian(vals, cats, cats[i])) &&
      (vals[i].None? && (forall j :: 0 <= j < |vals| && cats[j] == cats[i] ==> vals[j].None?) ==>
        r[i] == OverallMedian(vals))
  {
    var r := Imputed(vals, cats).value;
    var overall := OverallMedian(vals).value;
    var g := InGroup(vals, cats, cats[i]);
    if vals[i].None? {
      assert r[i].value == OrElse(GroupMedian(vals, cats, cats[i]), overall);
      if exists j :: 0 <= j < |vals| && cats[j] == cats[i] && vals[j].Some? {
        var j :| 0 <= j < |vals| && cats[j] == cats[i] && vals[j].Some?;
        assert g[j].Some?;
      } else {
        assert forall j :: 0 <= j < |g| ==> g[j].None?;
      }
    }
  }

  /** The fill of line 87 never changes anything: line 85 has already filled every gap. */
  lemma SecondFillIsNoOp<C>(vals: seq<Option<int>>, cats: seq<C>, overall: int, v: int)
    requires |vals| == |cats|
    ensures FillWith(GroupFill(vals, cats, overall), v) == GroupFill(vals, cats, overall)
  {
  }

  /** Every value of a category's group is a value of the column. */
  lemma GroupValuesArePresent<C>(vals: seq<Option<int>>, cats: seq<C>, c: C, x: int)
    requires |vals| == |cats|
    requires x in Present(InGroup(vals, cats, c))
    ensures x in Present(vals)
  {
    var g := InGroup(vals, cats, c);
    PresentMembers(g, x);
    var i :| 0 <= i < |g| && g[i] == Some(x);
    PresentMembers(vals, x);
  }

  /** Every imputed value lies between two present values of the column. */
  lemma ImputedBetweenPresent<C>(vals: seq<Option<int>>, cats: seq<C>, i: nat)
    requires |vals| == |cats| && i < |vals|
    requires Imputed(vals, cats).Some?
    ensures var r := Imputed(vals, cats).value;
      r[i].Some? &&
      exists j, k :: 0 <= j < |vals| && 0 <= k < |vals| && vals[j].Some? && vals[k].Some? &&
        vals[j].value <= r[i].value <= vals[k].value
  {
    var r := Imputed(vals, cats).value;
    var group := Present(InGroup(vals, cats, cats[i]));
    var xs := if vals[i].Some? then [vals[i].value] else if group != [] then group else Present(vals);
    assert xs != [] && r[i].value == if vals[i].Some? then xs[0] else IntMedian(xs);
    var a, b;
    if vals[i].Some? {
      a, b := 0, 0;
    } else {
      IntMedianBetween(xs);
      a, b :| 0 <= a < |xs| && 0 <= b < |xs| && xs[a] <= IntMedian(xs) <= xs[b];
    }
    assert xs[a] in Present(vals) && xs[b] in Present(vals) by {
      if vals[i].Some? {
        PresentMembers(vals, xs[a]);
      } else if group != [] {
        GroupValuesArePresent(vals, cats, cats[i], xs[a]);
        GroupValuesArePresent(vals, cats, cats[i], xs[b]);
      }
    }
    PresentMembers(vals, xs[a]);
    PresentMembers(vals, xs[b]);
  }

  /** A lower bound that holds for every present value holds for every imputed value; in
      particular positive impressions stay positive. */
  lemma ImputedAtLeast<C>(vals: seq<Option<int>>, cats: seq<C>, lo: int)
    requires |vals| == |cats|
    requires forall i :: 0 <= i < |vals| && vals[i].Some? ==> vals[i].value >= lo
    requires Imputed(vals, cats).Some?
    ensures forall i :: 0 <= i < |vals| ==>
      Imputed(vals, cats).value[i].Some? && Imputed(vals, cats).value[i].value >= lo
  {
    forall i | 0 <= i < |vals|
      ensures Imputed(vals, cats).value[i].Some? && Imputed(vals, cats).value[i].value >= lo
    {
      ImputedBetweenPresent(vals, cats, i);
    }
  }

  /** Lines 84-87 in place: `imps` is overwritten with the imputed column; when no value is present
      line 84 raises before anything is written, and `ok` is false. */
  method FillImpressions<C(==)>(imps: array<Option<int>>, cats: seq<C>) returns (ok: bool)
    requires imps.Length == |cats|
    modifies imps
    ensures ok <==> Imputed(old(imps[..]), cats).Some?
    ensures ok ==> imps[..] == Imputed(old(imps[..]), cats).value
    ensures !ok ==> imps[..] == old(imps[..])
  {
    var overall := OverallMedian(imps[..]);
    if overall.None? {
      return false;
    }
    var o := overall.value;
    FillNa(imps, GroupFillValues(imps[..], cats, o));
    FillNa(imps, seq(imps.Length, _ => o));
    return true;
  }

  /** `fillna` in place, one fill value per row: lines 85 and 87 both take this form. */
  method FillNa(imps: array<Option<int>>, fills: seq<int>)
    requires |fills| == imps.Length
    modifies imps
    ensures imps[..] == FillEach(old(imps[..]), fills)
  {
    ghost var before := imps[..];
    var i := 0;
    while i < imps.Length
      invariant 0 <= i <= imps.Length
      invariant forall j :: 0 <= j < i ==> imps[j] == FillCell(before[j], fills[j])
      invariant forall j :: i <= j < imps.Length ==> imps[j] == before[j]
    {
      imps[i] := FillCell(imps[i], fills[i]);
      i := i + 1;
    }
  }
}
