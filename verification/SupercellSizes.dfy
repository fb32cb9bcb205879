/** Scanning target sizes: which supercell sizes exist in a range, kept in a cache, and the one closest to a request. */
module SupercellSizes {
  import opened Common
  import opened Numeric
  import opened Sorting
  import opened Sublattice
  import opened SupercellSearch

  datatype SizeEntry = SizeEntry(lx: real, ly: real, avg: real, anisotropy: real, det: int, matrix: Matrix)

  // The parameters of a scan, which are also the cache key.
  datatype Scan = Scan(a: real, b: real, gammaDeg: real, c: real, xyMin: real, xyMax: real, targetZ: real,
                       maxCells: int, tol: real, step: real)
  {
    function Limit(): real {
      xyMax + step * 0.5
    }
  }

  // Two sizes count as one when both edges agree to six decimals.
  function SizeKey(lx: real, ly: real): (int, int) {
    (Round(lx * 1000000.0), Round(ly * 1000000.0))
  }

  function KeyOf(e: SizeEntry): (int, int) {
    SizeKey(e.lx, e.ly)
  }

  function EntryOf(r: Supercell): SizeEntry {
    var avg := (r.lx + r.ly) / 2.0;
    SizeEntry(r.lx, r.ly, avg, AbsR(r.lx - r.ly) / MaxR(avg, TINY) * 100.0, r.det, r.matrix)
  }

  predicate InWindow(k: Scan, e: SizeEntry) {
    k.xyMin - 1.0 <= e.avg <= k.xyMax + 1.0
  }

  predicate HasKey(entries: seq<SizeEntry>, key: (int, int)) {
    exists i :: 0 <= i < |entries| && KeyOf(entries[i]) == key
  }

  // One step of the scan: the first size with a new key is kept.
  function Keep(k: Scan, seen: seq<SizeEntry>, e: SizeEntry): seq<SizeEntry> {
    if InWindow(k, e) && !HasKey(seen, KeyOf(e)) then seen + [e] else seen
  }

  function Average(): SizeEntry -> real {
    (e: SizeEntry) => e.avg
  }

  function Deviation(e: SizeEntry, lx: real, ly: real): real {
    MaxR(AbsR(e.lx - lx), AbsR(e.ly - ly))
  }

  // The components of a lattice vector.
  function AlongX(k: Scan, cosG: real, p: int, q: int): real {
    p as real * k.a + q as real * (k.b * cosG)
  }

  function AlongY(k: Scan, sinG: real, p: int, q: int): real {
    p as real * 0.0 + q as real * (k.b * sinG)
  }

  // Cosine, sine and hypotenuse of the host's mathematics library.
  datatype Library = Library(cosine: real -> real, sine: real -> real, hypotenuse: (real, real) -> real) {
    function SearchFor(k: Scan, target: real): Search {
      var cosG, sinG := cosine(k.gammaDeg), sine(k.gammaDeg);
      Search(k.a, k.b, k.gammaDeg, cosG, sinG, k.c, target, k.targetZ, k.maxCells, k.tol, 1,
             (p: int, q: int) => hypotenuse(AlongX(k, cosG, p, q), AlongY(k, sinG, p, q)))
    }

    ghost function Found(k: Scan, target: real): Result<Supercell, SearchError> {
      Optimal(SearchFor(k, target))
    }
  }

  // ---------------------------------------------------------------- the scan points

  function Target(k: Scan, i: nat): real {
    k.xyMin + i as real * k.step
  }

  ghost predicate InScan(k: Scan, i: nat) {
    Target(k, i) <= k.Limit()
  }

  // How many scan points are left from point i on.
  function PointsLeft(k: Scan, i: nat): int
    requires k.step > 0.0
  {
    ((k.Limit() - Target(k, i)) / k.step).Floor + 1
  }

  lemma ZeroFactor(u: real, y: real, z: real)
    requires y > 0.0 && z == u * y
    ensures z == 0.0 ==> u == 0.0
    ensures z >= 0.0 ==> u >= 0.0
  {
  }

  lemma QuotientStep(x: real, y: real)
    requires y > 0.0
    ensures (x - y) / y == x / y - 1.0
    ensures x >= 0.0 ==> x / y >= 0.0
  {
    var q, r := x / y, (x - y) / y;
    assert q * y == x;
    assert r * y == x - y;
    ZeroFactor(q, y, x);
    ZeroFactor(r - (q - 1.0), y, 0.0);
  }

  lemma ScanStep(k: Scan, i: nat)
    requires k.step > 0.0
    ensures Target(k, i + 1) == Target(k, i) + k.step
    ensures PointsLeft(k, i + 1) == PointsLeft(k, i) - 1
    ensures InScan(k, i) ==> PointsLeft(k, i) >= 1
  {
    assert (i + 1) as real * k.step == i as real * k.step + k.step;
    var x := k.Limit() - Target(k, i);
    QuotientStep(x, k.step);
    assert k.Limit() - Target(k, i + 1) == x - k.step;
  }

  lemma EarlierInScan(k: Scan, i: nat, j: nat)
    requires k.step > 0.0 && i <= j && InScan(k, j)
    ensures InScan(k, i)
  {
    MulMono(i as real, j as real, k.step);
  }

  // ---------------------------------------------------------------- what a scan yields

  // The entries collected from scan point i on, after those already seen.
  ghost function Collect(lib: Library, k: Scan, i: nat, seen: seq<SizeEntry>): Result<seq<SizeEntry>, SearchError>
    requires k.step > 0.0
    decreases PointsLeft(k, i)
  {
    if !InScan(k, i) then Success(seen)
    else
      ScanStep(k, i);
      hide *;
      var r := lib.Found(k, Target(k, i));
      if r.Failure? then Failure(r.error) else Collect(lib, k, i + 1, Keep(k, seen, EntryOf(r.value)))
  }

  // The list a scan yields without any cache.
  ghost function Sizes(lib: Library, k: Scan): Result<seq<SizeEntry>, SearchError>
    requires k.step > 0.0
  {
    var r := Collect(lib, k, 0, []);
    if r.Failure? then r else Success(Sorted(r.value, Average()))
  }

  // The entry of scan point i when its size lies in the window.
  ghost function EntryAt(lib: Library, k: Scan, i: nat): Option<SizeEntry> {
    var r := lib.Found(k, Target(k, i));
    if InScan(k, i) && r.Success? && InWindow(k, EntryOf(r.value)) then Some(EntryOf(r.value)) else None
  }

  // Scan point i is the first to meet its size.
  ghost predicate IsFirst(lib: Library, k: Scan, i: nat) {
    && EntryAt(lib, k, i).Some?
    && forall j: nat :: j < i && EntryAt(lib, k, j).Some?
        ==> KeyOf(EntryAt(lib, k, j).value) != KeyOf(EntryAt(lib, k, i).value)
  }

  // An entry met for the first time before scan point i.
  ghost predicate MetBefore(lib: Library, k: Scan, i: nat, e: SizeEntry) {
    exists j: nat :: j < i && IsFirst(lib, k, j) && EntryAt(lib, k, j) == Some(e)
  }

  // seen holds exactly the entries of the first meetings before scan point i, each size once.
  ghost predicate SeenBefore(lib: Library, k: Scan, i: nat, seen: seq<SizeEntry>) {
    && (forall e :: e in seen <==> MetBefore(lib, k, i, e))
    && OneEach(seen)
    && Covers(lib, k, i, seen)
  }

  predicate OneEach(seen: seq<SizeEntry>) {
    forall a, b :: 0 <= a < b < |seen| ==> KeyOf(seen[a]) != KeyOf(seen[b])
  }

  ghost predicate Covers(lib: Library, k: Scan, i: nat, seen: seq<SizeEntry>) {
    forall j: nat :: j < i && EntryAt(lib, k, j).Some? ==> HasKey(seen, KeyOf(EntryAt(lib, k, j).value))
  }

  lemma FirstStep(lib: Library, k: Scan, i: nat, seen: seq<SizeEntry>)
    requires SeenBefore(lib, k, i, seen) && EntryAt(lib, k, i).Some?
    ensures IsFirst(lib, k, i) <==> !HasKey(seen, KeyOf(EntryAt(lib, k, i).value))
  {
    hide EntryAt, KeyOf;
    var e := EntryAt(lib, k, i).value;
    if HasKey(seen, KeyOf(e)) {
      var a :| 0 <= a < |seen| && KeyOf(seen[a]) == KeyOf(e);
      assert seen[a] in seen;
    }
  }

  lemma MetStep(lib: Library, k: Scan, i: nat, e: SizeEntry)
    ensures MetBefore(lib, k, i + 1, e)
      <==> MetBefore(lib, k, i, e) || (IsFirst(lib, k, i) && EntryAt(lib, k, i) == Some(e))
  {
    hide IsFirst, EntryAt;
  }

  lemma SeenSkip(lib: Library, k: Scan, i: nat, seen: seq<SizeEntry>)
    requires SeenBefore(lib, k, i, seen) && !IsFirst(lib, k, i)
    requires EntryAt(lib, k, i).Some? ==> HasKey(seen, KeyOf(EntryAt(lib, k, i).value))
    ensures SeenBefore(lib, k, i + 1, seen)
  {
    hide IsFirst, EntryAt, HasKey, KeyOf, MetBefore;
    forall e ensures e in seen <==> MetBefore(lib, k, i + 1, e) {
      MetStep(lib, k, i, e);
    }
  }

  lemma KeysKept(seen: seq<SizeEntry>, e: SizeEntry, key: (int, int))
    ensures HasKey(seen + [e], key) <==> HasKey(seen, key) || key == KeyOf(e)
  {
    hide KeyOf;
    var next := seen + [e];
    assert next[|seen|] == e && forall a :: 0 <= a < |seen| ==> next[a] == seen[a];
  }

  lemma SeenAdd(lib: Library, k: Scan, i: nat, seen: seq<SizeEntry>, e: SizeEntry)
    requires SeenBefore(lib, k, i, seen) && IsFirst(lib, k, i) && EntryAt(lib, k, i) == Some(e)
      && !HasKey(seen, KeyOf(e))
    ensures SeenBefore(lib, k, i + 1, seen + [e])
  {
    hide IsFirst, EntryAt, KeyOf, MetBefore, HasKey;
    forall f ensures f in seen + [e] <==> MetBefore(lib, k, i + 1, f) {
      MetStep(lib, k, i, f);
    }
    NewKey(seen, e);
    forall j: nat | j < i + 1 && EntryAt(lib, k, j).Some? ensures HasKey(seen + [e], KeyOf(EntryAt(lib, k, j).value)) {
      KeysKept(seen, e, KeyOf(EntryAt(lib, k, j).value));
    }
  }

  lemma NewKey(seen: seq<SizeEntry>, e: SizeEntry)
    requires OneEach(seen) && !HasKey(seen, KeyOf(e))
    ensures OneEach(seen + [e])
  {
    hide KeyOf;
  }

  lemma SeenStep(lib: Library, k: Scan, i: nat, seen: seq<SizeEntry>, e: SizeEntry)
    requires SeenBefore(lib, k, i, seen) && InScan(k, i) && lib.Found(k, Target(k, i)).Success?
    requires e == EntryOf(lib.Found(k, Target(k, i)).value)
    ensures SeenBefore(lib, k, i + 1, Keep(k, seen, e))
  {
    EntryHere(lib, k, i, e);
    hide EntryAt, KeyOf, EntryOf, InWindow, Library.Found, InScan, SeenBefore, HasKey;
    if !InWindow(k, e) {
      SeenSkip(lib, k, i, seen);
    } else {
      FirstStep(lib, k, i, seen);
      if HasKey(seen, KeyOf(e)) {
        SeenSkip(lib, k, i, seen);
      } else {
        SeenAdd(lib, k, i, seen, e);
      }
    }
  }

  lemma EntryHere(lib: Library, k: Scan, i: nat, e: SizeEntry)
    requires InScan(k, i) && lib.Found(k, Target(k, i)).Success?
    requires e == EntryOf(lib.Found(k, Target(k, i)).value)
    ensures EntryAt(lib, k, i) == if InWindow(k, e) then Some(e) else None
  {
    hide Library.Found, EntryOf, InWindow;
  }

  lemma {:induction false} CollectFacts(lib: Library, k: Scan, i: nat, seen: seq<SizeEntry>)
    requires k.step > 0.0 && SeenBefore(lib, k, i, seen)
    ensures var r := Collect(lib, k, i, seen);
      && (r.Failure? <==> exists j: nat :: j >= i && InScan(k, j) && lib.Found(k, Target(k, j)).Failure?)
      && (r.Success? ==> exists n: nat :: n >= i && !InScan(k, n) && SeenBefore(lib, k, n, r.value))
    decreases PointsLeft(k, i)
  {
    hide SeenBefore, InScan, Library.Found, Keep, EntryOf, PointsLeft, Target;
    if InScan(k, i) {
      ScanStep(k, i);
      var r := lib.Found(k, Target(k, i));
      if r.Success? {
        SeenStep(lib, k, i, seen, EntryOf(r.value));
        CollectFacts(lib, k, i + 1, Keep(k, seen, EntryOf(r.value)));
      }
    } else {
      forall j: nat | j >= i ensures !InScan(k, j) {
        if InScan(k, j) { EarlierInScan(k, i, j); }
      }
    }
  }

  lemma TwicePresent<T>(t: seq<T>, a: nat, b: nat)
    requires a < b < |t| && t[a] == t[b]
    ensures multiset(t)[t[a]] >= 2
  {
    assert t == t[..b] + [t[b]] + t[b + 1..];
    assert t[..b][a] == t[a];
    assert t[a] in t[..b];
    assert multiset(t[..b])[t[a]] >= 1;
  }

  lemma OneEachPermuted(s: seq<SizeEntry>, t: seq<SizeEntry>)
    requires OneEach(s) && multiset(s) == multiset(t)
    ensures OneEach(t)
  {
    hide KeyOf;
    forall a, b | 0 <= a < b < |t| ensures KeyOf(t[a]) != KeyOf(t[b]) {
      var i := IndexIn(t[a], t, s);
      var j := IndexIn(t[b], t, s);
      if i == j {
        TwicePresent(t, a, b);
        DistinctMultiset(s, t[a]);
        assert false;
      }
    }
  }

  lemma SameMembers<T>(s: seq<T>, t: seq<T>)
    requires multiset(s) == multiset(t)
    ensures forall e :: e in s <==> e in t
  {
    forall e ensures e in s <==> e in t {
      assert e in multiset(s) <==> e in multiset(t);
    }
  }

  /** A scan fails exactly when the search fails at some scan point. Otherwise it lists, by ascending average edge and
      each size once, exactly the in-window results, each as the first scan point with its size found it. */
  lemma SizesTheorem(lib: Library, k: Scan)
    requires k.step > 0.0
    ensures Sizes(lib, k).Failure? <==> exists j: nat :: InScan(k, j) && lib.Found(k, Target(k, j)).Failure?
    ensures Sizes(lib, k).Success? ==>
      var list := Sizes(lib, k).value;
      && (forall i, j :: 0 <= i < j < |list| ==> list[i].avg <= list[j].avg)
      && (forall i, j :: 0 <= i < j < |list| ==> KeyOf(list[i]) != KeyOf(list[j]))
      && (forall e :: e in list <==> exists j: nat :: IsFirst(lib, k, j) && EntryAt(lib, k, j) == Some(e))
  {
    hide InScan, Library.Found, IsFirst, EntryAt, KeyOf, Collect, Sorted, Target;
    StartSeen(lib, k);
    CollectFacts(lib, k, 0, []);
    var r := Collect(lib, k, 0, []);
    if r.Success? {
      var n: nat :| !InScan(k, n) && SeenBefore(lib, k, n, r.value);
      var list := Sorted(r.value, Average());
      SortedFacts(r.value, Average(), 0.0);
      OneEachPermuted(r.value, list);
      SameMembers(r.value, list);
      forall i, j | 0 <= i < j < |list| ensures list[i].avg <= list[j].avg {
        assert Average()(list[i]) <= Average()(list[j]);
      }
      forall e ensures e in list <==> exists j: nat :: IsFirst(lib, k, j) && EntryAt(lib, k, j) == Some(e) {
        assert e in list <==> MetBefore(lib, k, n, e);
        AllMet(lib, k, n, e);
      }
    }
  }

  lemma StartSeen(lib: Library, k: Scan)
    ensures SeenBefore(lib, k, 0, [])
  {
    hide IsFirst, EntryAt, HasKey, KeyOf;
  }

  lemma AllMet(lib: Library, k: Scan, n: nat, e: SizeEntry)
    requires k.step > 0.0 && !InScan(k, n)
    ensures MetBefore(lib, k, n, e) <==> exists j: nat :: IsFirst(lib, k, j) && EntryAt(lib, k, j) == Some(e)
  {
    forall j: nat | IsFirst(lib, k, j) ensures j < n {
      FirstInScan(lib, k, j);
      if j >= n { EarlierInScan(k, n, j); }
    }
    hide IsFirst, EntryAt, InScan;
  }

  lemma FirstInScan(lib: Library, k: Scan, j: nat)
    ensures IsFirst(lib, k, j) ==> InScan(k, j)
  {
    hide Library.Found, InScan, Target;
  }

  // ---------------------------------------------------------------- the cache

  // The module-level cache, filled by scans.
  class SizeFinder {
    const lib: Library
    var cache: map<Scan, seq<SizeEntry>>

    constructor (lib: Library)
      ensures this.lib == lib && cache == map[] && Honest()
    {
      this.lib := lib;
      cache := map[];
    }

    // Every cached list is what the scan yields.
    ghost predicate Honest()
      reads this
    {
      forall k :: k in cache ==> k.step > 0.0 && Sizes(lib, k) == Success(cache[k])
    }

    /** The cache cannot be told from recomputation. */
    method EnumerateAvailableSizes(k: Scan) returns (res: Result<seq<SizeEntry>, SearchError>)
      requires k.step > 0.0 && Honest()
      modifies this`cache
      ensures Honest() && res == Sizes(lib, k)
      ensures cache == if res.Success? then old(cache)[k := res.value] else old(cache)
    {
      hide Optimal, Keep, EntryOf, PointsLeft, Target, Library.SearchFor, Sorted, Collect;
      if k in cache {
        assert cache == cache[k := cache[k]];
        return Success(cache[k]);
      }
      var seen: seq<SizeEntry> := [];
      var target := k.xyMin;
      ghost var i: nat := 0;
      StartTarget(k);
      while target <= k.Limit()
        invariant cache == old(cache) && Honest()
        invariant target == Target(k, i)
        invariant Collect(lib, k, i, seen) == Collect(lib, k, 0, [])
        decreases PointsLeft(k, i)
      {
        ScanStep(k, i);
        InScanIs(k, i);
        var r := FindOptimalSupercell(lib.SearchFor(k, target));
        assert lib.Found(k, Target(k, i)) == r;
        CollectStep(lib, k, i, seen);
        if r.Failure? {
          return Failure(r.error);
        }
        seen := Keep(k, seen, EntryOf(r.value));
        target := target + k.step;
        i := i + 1;
      }
      InScanIs(k, i);
      CollectStep(lib, k, i, seen);
      var entries := Sorted(seen, Average());
      cache := cache[k := entries];
      res := Success(entries);
    }

    /** The available size whose worse edge is closest to the request, the first of them on a tie; none exactly when the
        scan around the request finds no size. */
    method FindBestMatch(request: Scan, lx: real, ly: real, margin: real)
      returns (res: Result<Option<SizeEntry>, SearchError>)
      requires request.step > 0.0 && Honest()
      modifies this`cache
      ensures Honest()
      ensures var sizes := Sizes(lib, Around(request, lx, ly, margin));
        if sizes.Failure? then res == Failure(sizes.error)
        else if sizes.value == [] then res == Success(None)
        else res.Success? && res.value.Some? && IsClosest(sizes.value, res.value.value, lx, ly)
    {
      hide Sizes;
      var sizes := EnumerateAvailableSizes(Around(request, lx, ly, margin));
      if sizes.Failure? {
        return Failure(sizes.error);
      }
      if sizes.value == [] {
        return Success(None);
      }
      var best := 0;
      for i := 1 to |sizes.value|
        invariant 0 <= best < i
        invariant forall j :: 0 <= j < i ==>
          && Deviation(sizes.value[best], lx, ly) <= Deviation(sizes.value[j], lx, ly)
          && (j < best ==> Deviation(sizes.value[best], lx, ly) < Deviation(sizes.value[j], lx, ly))
      {
        if Deviation(sizes.value[i], lx, ly) < Deviation(sizes.value[best], lx, ly) {
          best := i;
        }
      }
      res := Success(Some(sizes.value[best]));
    }
  }

  lemma CollectStep(lib: Library, k: Scan, i: nat, seen: seq<SizeEntry>)
    requires k.step > 0.0
    ensures !InScan(k, i) ==> Collect(lib, k, i, seen) == Success(seen)
    ensures InScan(k, i) ==>
      var r := lib.Found(k, Target(k, i));
      Collect(lib, k, i, seen)
        == if r.Failure? then Failure(r.error) else Collect(lib, k, i + 1, Keep(k, seen, EntryOf(r.value)))
  {
    hide Library.Found, Keep, EntryOf, InScan;
  }

  lemma StartTarget(k: Scan)
    ensures Target(k, 0) == k.xyMin
  {
  }

  lemma InScanIs(k: Scan, i: nat)
    ensures InScan(k, i) <==> Target(k, i) <= k.Limit()
  {
  }

  // The scan around the average of the requested edges.
  function Around(request: Scan, lx: real, ly: real, margin: real): Scan {
    var avg := (lx + ly) / 2.0;
    request.(xyMin := MaxR(1.0, avg - margin), xyMax := avg + margin)
  }

  predicate IsClosest(sizes: seq<SizeEntry>, e: SizeEntry, lx: real, ly: real) {
    exists i :: 0 <= i < |sizes| && sizes[i] == e
      && (forall j :: 0 <= j < |sizes| ==> Deviation(e, lx, ly) <= Deviation(sizes[j], lx, ly))
      && (forall j :: 0 <= j < i ==> Deviation(e, lx, ly) < Deviation(sizes[j], lx, ly))
  }

  /** What a scan point yields: it lies at a whole number of steps above the lower end and at most half a step above the
      upper end; its search result is listed when its average edge lies within 1 of the range, with the average, the
      anisotropy in percent, and the fields of the result. */
  lemma EntryIs(lib: Library, k: Scan, i: nat)
    requires lib.Found(k, Target(k, i)).Success?
    ensures var r, e := lib.Found(k, Target(k, i)).value, EntryAt(lib, k, i);
      var avg := (r.lx + r.ly) / 2.0;
      && Target(k, i) == k.xyMin + i as real * k.step
      && (e.Some? <==> Target(k, i) <= k.xyMax + k.step / 2.0 && k.xyMin - 1.0 <= avg <= k.xyMax + 1.0)
      && (e.Some? ==>
            && e.value.lx == r.lx && e.value.ly == r.ly && e.value.det == r.det && e.value.matrix == r.matrix
            && e.value.avg == avg
            && e.value.anisotropy * MaxR(avg, 0.000000000001) == 100.0 * AbsR(r.lx - r.ly))
  {
    hide Library.Found;
    var r := lib.Found(k, Target(k, i)).value;
    AnisotropyIs(r);
    hide EntryOf;
  }

  lemma AnisotropyIs(r: Supercell)
    ensures var e, avg := EntryOf(r), (r.lx + r.ly) / 2.0;
      && e.lx == r.lx && e.ly == r.ly && e.avg == avg && e.det == r.det && e.matrix == r.matrix
      && e.anisotropy * MaxR(avg, 0.000000000001) == 100.0 * AbsR(r.lx - r.ly)
  {
    var gap, d := AbsR(r.lx - r.ly), MaxR((r.lx + r.ly) / 2.0, TINY);
    assert (gap / d) * d == gap;
    assert (gap / d * 100.0) * d == 100.0 * gap;
  }

  /** Sizes count as one when their edges are rounded to the same millionths. */
  lemma KeyIs(e: SizeEntry)
    ensures var (kx, ky) := KeyOf(e);
      AbsR(e.lx * 1000000.0 - kx as real) <= 0.5 && AbsR(e.ly * 1000000.0 - ky as real) <= 0.5
  {
    RoundError(e.lx * 1000000.0);
    RoundError(e.ly * 1000000.0);
    hide Numeric.Round;
  }

  /** The search of a scan point: the parameters of the scan, the cosine and sine of the angle, at least one layer. */
  lemma SearchIs(lib: Library, k: Scan, target: real, p: int, q: int)
    ensures var w := lib.SearchFor(k, target);
      && w.a == k.a && w.b == k.b && w.gammaDeg == k.gammaDeg && w.c == k.c && w.targetXy == target
      && w.targetZ == k.targetZ && w.maxCells == k.maxCells && w.tol == k.tol && w.minNz == 1
      && w.cosG == lib.cosine(k.gammaDeg) && w.sinG == lib.sine(k.gammaDeg)
      && w.norm(p, q) == lib.hypotenuse(AlongX(k, w.cosG, p, q), AlongY(k, w.sinG, p, q))
      && AlongX(k, w.cosG, p, q) == w.X(p, q) && AlongY(k, w.sinG, p, q) == w.Y(p, q)
  {
    VectorIs(lib.SearchFor(k, target), k, p, q);
    hide AlongX, AlongY, Search.X, Search.Y;
  }

  lemma VectorIs(w: Search, k: Scan, p: int, q: int)
    requires w.a == k.a && w.b == k.b
    ensures AlongX(k, w.cosG, p, q) == w.X(p, q) && AlongY(k, w.sinG, p, q) == w.Y(p, q)
  {
  }

  /** The scan around a request, and what closest means: no size of the list has a smaller worse deviation. */
  lemma ClosestMeans(request: Scan, sizes: seq<SizeEntry>, e: SizeEntry, s: SizeEntry, lx: real, ly: real, margin: real)
    requires IsClosest(sizes, e, lx, ly) && s in sizes
    ensures e in sizes
      && MaxR(AbsR(e.lx - lx), AbsR(e.ly - ly)) <= MaxR(AbsR(s.lx - lx), AbsR(s.ly - ly))
    ensures var k, avg := Around(request, lx, ly, margin), (lx + ly) / 2.0;
      && k == request.(xyMin := k.xyMin, xyMax := k.xyMax)
      && k.xyMax == avg + margin && k.xyMin == if avg - margin < 1.0 then 1.0 else avg - margin
  {
    hide Numeric.AbsR;
  }
}
