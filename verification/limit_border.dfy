/**
  The exclusion border of the limit plots (make_plots.py): entries
  (x, y, z) with z the limit on the signal strength; an entry with z <= 1
  is excluded, and the border is, for every x that has an excluded entry,
  the smallest y among them, in ascending order of x. Also the clamp that
  replaces an implausibly large limit value.
 */
module LimitBorder {

  // ---------------------------------------------------------------------------
  // The clamp in get_limit_value

  /** A limit above this is taken to be a failed fit ... */
  const ClampThreshold: real := 1000.0
  /** ... and replaced by this. */
  const ClampReplacement: real := 500.0

  function Clamp(v: real): (r: real)
    ensures r <= ClampThreshold
    ensures r == v <==> v <= ClampThreshold
    ensures r != v ==> r == ClampReplacement
  {
    if v > ClampThreshold then ClampReplacement else v
  }


  // ---------------------------------------------------------------------------
  // Entries

  /** One point of the scan: x and y are the plot axes, z the limit. */
  datatype Entry = Entry(x: real, y: real, z: real)

  /** An entry is excluded at 95% confidence when its limit is at most 1. */
  predicate Excluded(e: Entry) {
    e.z <= 1.0
  }

  /** `zip(x, y, z)`: as long as the shortest of the three. */
  function Zip(xs: seq<real>, ys: seq<real>, zs: seq<real>): (es: seq<Entry>)
    ensures |es| <= |xs| && |es| <= |ys| && |es| <= |zs|
    ensures |es| == |xs| || |es| == |ys| || |es| == |zs|
    ensures forall i :: 0 <= i < |es| ==> es[i] == Entry(xs[i], ys[i], zs[i])
    decreases |xs|
  {
    if xs == [] || ys == [] || zs == [] then []
    else [Entry(xs[0], ys[0], zs[0])] + Zip(xs[1..], ys[1..], zs[1..])
  }

  /** Some excluded entry has abscissa x. */
  ghost predicate HasExcluded(es: seq<Entry>, x: real) {
    exists i :: 0 <= i < |es| && Excluded(es[i]) && es[i].x == x
  }

  /** Some excluded entry with abscissa x has ordinate y. */
  ghost predicate ExcludedAt(es: seq<Entry>, x: real, y: real) {
    exists i :: 0 <= i < |es| && Excluded(es[i]) && es[i].x == x && es[i].y == y
  }

  // ---------------------------------------------------------------------------
  // Grouping by x

  /**
    The dictionary of the first loop: for each x with an excluded entry, the
    ordinates of its excluded entries in input order.
   */
  function Group(es: seq<Entry>): (g: map<real, seq<real>>)
    ensures forall x :: x in g <==> HasExcluded(es, x)
    ensures forall x :: x in g ==> |g[x]| > 0
    ensures forall x, y :: x in g ==> (y in g[x] <==> ExcludedAt(es, x, y))
    decreases |es|
  {
    if es == [] then map[]
    else
      var init := es[..|es| - 1];
      var e := es[|es| - 1];
      var g := Group(init);
      assert forall i :: 0 <= i < |init| ==> init[i] == es[i];
      assert forall x :: HasExcluded(init, x) ==> HasExcluded(es, x);
      assert forall x, y :: ExcludedAt(init, x, y) ==> ExcludedAt(es, x, y);
      if Excluded(e) then
        assert ExcludedAt(es, e.x, e.y);
        g[e.x := (if e.x in g then g[e.x] else []) + [e.y]]
      else g
  }

  // ---------------------------------------------------------------------------
  // Minimum and sorting

  /** `min()` of a non-empty list. */
  function Min(s: seq<real>): (r: real)
    requires |s| > 0
    ensures r in s
    ensures forall v :: v in s ==> r <= v
  {
    if |s| == 1 then s[0]
    else
      var m := Min(s[1..]);
      assert forall v :: v in s ==> v == s[0] || v in s[1..];
      if s[0] <= m then s[0] else m
  }

  /** The minimum depends on the elements only, not on their order or multiplicity. */
  lemma MinOfSameElements(s: seq<real>, t: seq<real>)
    requires |s| > 0 && |t| > 0
    requires forall v :: v in s <==> v in t
    ensures Min(s) == Min(t)
  {
  }

  /** The values of s other than v, in order. */
  function Without(s: seq<real>, v: real): (r: seq<real>)
    ensures forall u :: u in r <==> u in s && u != v
    ensures v in s ==> |r| < |s|
    ensures |r| <= |s|
  {
    if s == [] then []
    else if s[0] == v then Without(s[1..], v)
    else [s[0]] + Without(s[1..], v)
  }

  /** `sorted(set(s))`: the distinct values of s, strictly ascending. */
  function SortedDistinct(s: seq<real>): (r: seq<real>)
    ensures forall v :: v in r <==> v in s
    ensures forall i, j :: 0 <= i < j < |r| ==> r[i] < r[j]
    decreases |s|
  {
    if s == [] then []
    else
      var lo := Min(s);
      [lo] + SortedDistinct(Without(s, lo))
  }

  /** A strictly ascending sequence is determined by its elements. */
  lemma {:induction false} AscendingUnique(r: seq<real>, t: seq<real>)
    requires forall i, j :: 0 <= i < j < |r| ==> r[i] < r[j]
    requires forall i, j :: 0 <= i < j < |t| ==> t[i] < t[j]
    requires forall v :: v in r <==> v in t
    ensures r == t
    decreases |r|
  {
    assert r != [] ==> r[0] in r && r[0] in t;
    assert t != [] ==> t[0] in t && t[0] in r;
    if r != [] && t != [] {
      var j :| 0 <= j < |t| && t[j] == r[0];
      var k :| 0 <= k < |r| && r[k] == t[0];
      assert forall i :: 0 <= i < |t| ==> t[0] <= t[i];
      assert forall i :: 0 <= i < |r| ==> r[0] <= r[i];
      assert r[0] == t[0];
      forall v ensures v in r[1..] <==> v in t[1..] {
        if v in r[1..] {
          var i :| 0 <= i < |r[1..]| && r[1..][i] == v;
          assert r[0] < r[i + 1];
          assert v in t && v != t[0];
        }
        if v in t[1..] {
          var i :| 0 <= i < |t[1..]| && t[1..][i] == v;
          assert t[0] < t[i + 1];
          assert v in r && v != r[0];
        }
      }
      AscendingUnique(r[1..], t[1..]);
      assert r == [r[0]] + r[1..] && t == [t[0]] + t[1..];
    }
  }

  /** The abscissae of the excluded entries, in input order, repeats kept. */
  function ExcludedXs(es: seq<Entry>): (xs: seq<real>)
    ensures forall x :: x in xs <==> HasExcluded(es, x)
    decreases |es|
  {
    if es == [] then []
    else
      var rest := ExcludedXs(es[1..]);
      assert forall x :: HasExcluded(es[1..], x) ==> HasExcluded(es, x) by {
        forall x | HasExcluded(es[1..], x) ensures HasExcluded(es, x) {
          var i :| 0 <= i < |es[1..]| && Excluded(es[1..][i]) && es[1..][i].x == x;
          assert es[i + 1] == es[1..][i];
        }
      }
      assert forall x :: HasExcluded(es, x) ==> (x == es[0].x && Excluded(es[0])) || HasExcluded(es[1..], x) by {
        forall x | HasExcluded(es, x) ensures (x == es[0].x && Excluded(es[0])) || HasExcluded(es[1..], x) {
          var i :| 0 <= i < |es| && Excluded(es[i]) && es[i].x == x;
          if i > 0 { assert es[1..][i - 1] == es[i]; }
        }
      }
      if Excluded(es[0]) then [es[0].x] + rest else rest
  }

  // ---------------------------------------------------------------------------
  // The border

  /** The distinct abscissae of the excluded entries, ascending. */
  function BorderMasses(es: seq<Entry>): (xs: seq<real>)
    ensures forall x :: x in xs <==> HasExcluded(es, x)
    ensures forall i, j :: 0 <= i < j < |xs| ==> xs[i] < xs[j]
  {
    SortedDistinct(ExcludedXs(es))
  }

  /** The border over a sequence of entries. */
  function BorderOf(es: seq<Entry>): (b: seq<real>)
    ensures |b| == |BorderMasses(es)|
    ensures forall i :: 0 <= i < |b| ==> ExcludedAt(es, BorderMasses(es)[i], b[i])
    ensures forall i, y :: 0 <= i < |b| && ExcludedAt(es, BorderMasses(es)[i], y) ==> b[i] <= y
  {
    var g := Group(es);
    var xs := BorderMasses(es);
    seq(|xs|, i requires 0 <= i < |xs| => Min(g[xs[i]]))
  }

  /**
    get_limit_border: for each x, ascending, the least y over the excluded
    entries with that x. The mass list passed in takes no part.
   */
  function GetLimitBorder(masses: seq<real>, xs: seq<real>, ys: seq<real>, zs: seq<real>): (b: seq<real>)
    ensures |b| == |BorderMasses(Zip(xs, ys, zs))|
    ensures forall i :: 0 <= i < |b| ==> ExcludedAt(Zip(xs, ys, zs), BorderMasses(Zip(xs, ys, zs))[i], b[i])
    ensures forall i, y :: 0 <= i < |b| && ExcludedAt(Zip(xs, ys, zs), BorderMasses(Zip(xs, ys, zs))[i], y) ==> b[i] <= y
  {
    BorderOf(Zip(xs, ys, zs))
  }

  /** The limits as the plot reads them, each through the clamp. */
  function ClampAll(zs: seq<real>): (cs: seq<real>)
    ensures |cs| == |zs| && forall i :: 0 <= i < |zs| ==> cs[i] == Clamp(zs[i])
  {
    seq(|zs|, i requires 0 <= i < |zs| => Clamp(zs[i]))
  }

  /**
    The clamp never moves the border: it only touches limits above 1000,
    which are not exclusions before the clamp and not after it either.
   */
  lemma {:induction false} ClampKeepsBorder(masses: seq<real>, xs: seq<real>, ys: seq<real>, zs: seq<real>)
    ensures GetLimitBorder(masses, xs, ys, ClampAll(zs)) == GetLimitBorder(masses, xs, ys, zs)
  {
    var es := Zip(xs, ys, zs);
    var fs := Zip(xs, ys, ClampAll(zs));
    assert |es| == |fs|;
    forall e | Excluded(e) ensures e in es <==> e in fs {
      if e in es {
        var i :| 0 <= i < |es| && es[i] == e;
        assert fs[i] == e;
      }
      if e in fs {
        var i :| 0 <= i < |fs| && fs[i] == e;
        assert es[i] == e;
      }
    }
    BorderDependsOnExcludedOnly(es, fs);
  }

  /** Only the excluded entries matter: any two lists with the same excluded entries give the same border. */
  lemma BorderDependsOnExcludedOnly(es: seq<Entry>, fs: seq<Entry>)
    requires forall e :: Excluded(e) ==> (e in es <==> e in fs)
    ensures BorderOf(es) == BorderOf(fs)
  {
    var g := Group(es);
    var h := Group(fs);
    forall x ensures HasExcluded(es, x) <==> HasExcluded(fs, x) {
      if HasExcluded(es, x) {
        var i :| 0 <= i < |es| && Excluded(es[i]) && es[i].x == x;
        assert es[i] in fs;
      }
      if HasExcluded(fs, x) {
        var i :| 0 <= i < |fs| && Excluded(fs[i]) && fs[i].x == x;
        assert fs[i] in es;
      }
    }
    var xs := BorderMasses(es);
    AscendingUnique(xs, BorderMasses(fs));
    forall i | 0 <= i < |xs|
      ensures Min(g[xs[i]]) == Min(h[xs[i]])
    {
      var x := xs[i];
      forall y ensures y in g[x] <==> y in h[x] {
        if ExcludedAt(es, x, y) {
          var j :| 0 <= j < |es| && Excluded(es[j]) && es[j].x == x && es[j].y == y;
          assert es[j] in fs;
        }
        if ExcludedAt(fs, x, y) {
          var j :| 0 <= j < |fs| && Excluded(fs[j]) && fs[j].x == x && fs[j].y == y;
          assert fs[j] in es;
        }
      }
      MinOfSameElements(g[x], h[x]);
    }
  }

  /** Reordering the entries leaves the border unchanged. */
  lemma BorderOrderIndependent(es: seq<Entry>, fs: seq<Entry>)
    requires multiset(es) == multiset(fs)
    ensures BorderOf(es) == BorderOf(fs)
  {
    forall e ensures e in es <==> e in fs {
      assert e in es <==> e in multiset(es);
      assert e in fs <==> e in multiset(fs);
    }
    BorderDependsOnExcludedOnly(es, fs);
  }

  /** Only the first min(|x|, |y|, |z|) values of each list are read. */
  lemma BorderTruncates(masses: seq<real>, xs: seq<real>, ys: seq<real>, zs: seq<real>, n: nat)
    requires n == |Zip(xs, ys, zs)|
    ensures GetLimitBorder(masses, xs, ys, zs) == GetLimitBorder([], xs[..n], ys[..n], zs[..n])
  {
    assert Zip(xs, ys, zs) == Zip(xs[..n], ys[..n], zs[..n]);
  }
}
