/** Angles and dihedrals generated from a bond list. */
module MolGraph {
  import opened Common

  datatype Bond = Bond(a: int, b: int)

  type Angle = (int, int, int)

  type Dihedral = (int, int, int, int)

  // ---------------------------------------------------------------- the graph

  predicate Joins(bond: Bond, x: int, y: int) {
    (bond.a == x && bond.b == y) || (bond.a == y && bond.b == x)
  }

  ghost predicate Bonded(bonds: seq<Bond>, x: int, y: int) {
    exists i :: 0 <= i < |bonds| && Joins(bonds[i], x, y)
  }

  /** No bond from an atom to itself, and no pair of atoms bonded twice. */
  ghost predicate Simple(bonds: seq<Bond>) {
    && (forall i :: 0 <= i < |bonds| ==> bonds[i].a != bonds[i].b)
    && (forall i, j :: 0 <= i < j < |bonds| ==> !Joins(bonds[j], bonds[i].a, bonds[i].b))
  }

  // What one bond adds to the neighbour list of v.
  function Ends(bond: Bond, v: int): seq<int> {
    (if bond.a == v then [bond.b] else []) + if bond.b == v then [bond.a] else []
  }

  /** The neighbours of v in the order of the bond list: the entry of v in the adjacency dictionary. */
  function Nbrs(bonds: seq<Bond>, v: int): seq<int> {
    if bonds == [] then [] else Nbrs(bonds[..|bonds| - 1], v) + Ends(bonds[|bonds| - 1], v)
  }

  function Add(keys: seq<int>, v: int): seq<int> {
    if v in keys then keys else keys + [v]
  }

  // The keys of the adjacency dictionary in insertion order.
  function Keys(bonds: seq<Bond>): seq<int> {
    if bonds == [] then []
    else
      var k := |bonds| - 1;
      Add(Add(Keys(bonds[..k]), bonds[k].a), bonds[k].b)
  }

  lemma {:induction false} NbrsAreBonded(bonds: seq<Bond>, v: int, w: int)
    ensures w in Nbrs(bonds, v) <==> Bonded(bonds, v, w)
  {
    if bonds != [] {
      var k := |bonds| - 1;
      NbrsAreBonded(bonds[..k], v, w);
      BondedSnoc(bonds, v, w);
      hide Bonded;
    }
  }

  lemma BondedSnoc(bonds: seq<Bond>, v: int, w: int)
    requires bonds != []
    ensures var k := |bonds| - 1; Bonded(bonds, v, w) <==> Bonded(bonds[..k], v, w) || Joins(bonds[k], v, w)
  {
    hide Joins;
    var k := |bonds| - 1;
    if Bonded(bonds, v, w) {
      var i :| 0 <= i < |bonds| && Joins(bonds[i], v, w);
      assert i < k ==> Joins(bonds[..k][i], v, w);
    }
    if Bonded(bonds[..k], v, w) {
      var i :| 0 <= i < k && Joins(bonds[..k][i], v, w);
      assert Joins(bonds[i], v, w);
    }
  }

  lemma SimplePrefix(bonds: seq<Bond>, k: nat)
    requires Simple(bonds) && k <= |bonds|
    ensures Simple(bonds[..k])
  {
  }

  lemma {:induction false} NbrsDistinct(bonds: seq<Bond>, v: int)
    requires Simple(bonds)
    ensures Distinct(Nbrs(bonds, v)) && v !in Nbrs(bonds, v)
  {
    if bonds != [] {
      var k := |bonds| - 1;
      SimplePrefix(bonds, k);
      NbrsDistinct(bonds[..k], v);
      forall w | w in Nbrs(bonds[..k], v)
        ensures w !in Ends(bonds[k], v)
      {
        NbrsAreBonded(bonds[..k], v, w);
        var i :| 0 <= i < k && Joins(bonds[..k][i], v, w);
        assert !Joins(bonds[k], bonds[i].a, bonds[i].b);
      }
      DistinctAppend(Nbrs(bonds[..k], v), Ends(bonds[k], v));
    }
  }

  lemma AddOnce(keys: seq<int>, v: int)
    requires Distinct(keys)
    ensures Distinct(Add(keys, v)) && forall w :: w in Add(keys, v) <==> w in keys || w == v
  {
  }

  lemma {:induction false} KeysAreTouched(bonds: seq<Bond>)
    ensures Distinct(Keys(bonds))
    ensures forall v :: v in Keys(bonds) <==> Nbrs(bonds, v) != []
  {
    if bonds != [] {
      var k := |bonds| - 1;
      KeysAreTouched(bonds[..k]);
      var before, bond := Keys(bonds[..k]), bonds[k];
      AddOnce(before, bond.a);
      AddOnce(Add(before, bond.a), bond.b);
      hide Add, Common.Distinct;
      forall v ensures v in Keys(bonds) <==> Nbrs(bonds, v) != [] {
        assert Nbrs(bonds, v) == Nbrs(bonds[..k], v) + Ends(bond, v);
      }
    }
  }

  // adj.get(v, [])
  function Entry(adj: map<int, seq<int>>, v: int): seq<int> {
    if v in adj then adj[v] else []
  }

  // adj.setdefault(v, []).append(w)
  function Linked(adj: map<int, seq<int>>, v: int, w: int): (r: map<int, seq<int>>)
    ensures r.Keys == adj.Keys + {v}
    ensures forall x :: Entry(r, x) == if x == v then Entry(adj, x) + [w] else Entry(adj, x)
  {
    adj[v := Entry(adj, v) + [w]]
  }

  lemma NbrsSnoc(bonds: seq<Bond>, i: nat, v: int)
    requires i < |bonds|
    ensures Nbrs(bonds[..i + 1], v) == Nbrs(bonds[..i], v) + Ends(bonds[i], v)
    ensures Keys(bonds[..i + 1]) == Add(Add(Keys(bonds[..i]), bonds[i].a), bonds[i].b)
  {
    assert bonds[..i + 1][..i] == bonds[..i];
  }

  lemma LinkStep(bonds: seq<Bond>, i: nat, adj: map<int, seq<int>>)
    requires i < |bonds| && forall v :: Entry(adj, v) == Nbrs(bonds[..i], v)
    ensures var adj' := Linked(Linked(adj, bonds[i].a, bonds[i].b), bonds[i].b, bonds[i].a);
      forall v :: Entry(adj', v) == Nbrs(bonds[..i + 1], v)
  {
    hide Nbrs, Entry, Linked;
    var a, b := bonds[i].a, bonds[i].b;
    var adj' := Linked(Linked(adj, a, b), b, a);
    forall v
      ensures Entry(adj', v) == Nbrs(bonds[..i + 1], v)
    {
      NbrsSnoc(bonds, i, v);
      assert Entry(adj', v) == Entry(adj, v) + Ends(bonds[i], v);
    }
  }

  lemma AddSet(keys: seq<int>, v: int)
    ensures SetOf(Add(keys, v)) == SetOf(keys) + {v}
  {
    if v !in keys {
      assert forall x :: x in Add(keys, v) <==> x in keys || x == v;
    }
  }

  // The adjacency dictionary, with its keys in insertion order.
  method BuildAdjacency(bonds: seq<Bond>) returns (keys: seq<int>, adj: map<int, seq<int>>)
    ensures keys == Keys(bonds) && adj.Keys == SetOf(keys)
    ensures forall v :: Entry(adj, v) == Nbrs(bonds, v)
  {
    keys, adj := [], map[];
    assert bonds[..0] == [];
    assert forall v :: Entry(adj, v) == Nbrs(bonds[..0], v);
    hide Nbrs, Keys, Entry, Add, Common.SetOf;
    for i := 0 to |bonds|
      invariant keys == Keys(bonds[..i]) && adj.Keys == SetOf(keys)
      invariant forall v :: Entry(adj, v) == Nbrs(bonds[..i], v)
    {
      var a, b := bonds[i].a, bonds[i].b;
      NbrsSnoc(bonds, i, a);
      AddSet(keys, a);
      AddSet(Add(keys, a), b);
      LinkStep(bonds, i, adj);
      keys := Add(Add(keys, a), b);
      adj := Linked(Linked(adj, a, b), b, a);
    }
    assert bonds[..|bonds|] == bonds;
  }

  // ---------------------------------------------------------------- angles

  // The angles at c between its i-th neighbour and the later ones.
  function AnglesFrom(c: int, ns: seq<int>, i: nat): (s: seq<Angle>)
    requires i < |ns|
    ensures |s| == |ns| - i - 1
  {
    seq(|ns| - i - 1, j requires 0 <= j < |ns| - i - 1 => (ns[i], c, ns[i + 1 + j]))
  }

  function AnglesAt(c: int, ns: seq<int>, n: nat): seq<Angle>
    requires n <= |ns|
  {
    if n == 0 then [] else AnglesAt(c, ns, n - 1) + AnglesFrom(c, ns, n - 1)
  }

  function AnglesOver(bonds: seq<Bond>, centers: seq<int>): seq<Angle> {
    if centers == [] then []
    else
      var k := |centers| - 1;
      var ns := Nbrs(bonds, centers[k]);
      AnglesOver(bonds, centers[..k]) + AnglesAt(centers[k], ns, |ns|)
  }

  function Angles(bonds: seq<Bond>): seq<Angle> {
    AnglesOver(bonds, Keys(bonds))
  }

  // The double loop over the neighbour positions of one atom.
  method AnglesAtCenter(center: int, ns: seq<int>) returns (angles: seq<Angle>)
    ensures angles == AnglesAt(center, ns, |ns|)
  {
    angles := [];
    for i := 0 to |ns|
      invariant angles == AnglesAt(center, ns, i)
    {
      ghost var row := AnglesFrom(center, ns, i);
      ghost var before := angles;
      for j := i + 1 to |ns|
        invariant angles == before + row[..j - i - 1]
      {
        assert row[..j - i] == row[..j - i - 1] + [(ns[i], center, ns[j])];
        angles := angles + [(ns[i], center, ns[j])];
      }
      assert row[..|ns| - i - 1] == row;
    }
  }

  method GetAngles(bonds: seq<Bond>) returns (angles: seq<Angle>)
    ensures angles == Angles(bonds)
  {
    hide Nbrs, Keys, AnglesAt;
    var keys, adj := BuildAdjacency(bonds);
    angles := [];
    for k := 0 to |keys|
      invariant angles == AnglesOver(bonds, keys[..k])
    {
      var center := keys[k];
      assert center in SetOf(keys);
      var ns := adj[center];
      assert Entry(adj, center) == ns;
      FewNeighbours(center, ns);
      if |ns| >= 2 {
        var added := AnglesAtCenter(center, ns);
        angles := angles + added;
      }
      assert keys[..k + 1][..k] == keys[..k];
    }
    assert keys[..|keys|] == keys;
  }

  lemma FewNeighbours(c: int, ns: seq<int>)
    ensures |ns| < 2 ==> AnglesAt(c, ns, |ns|) == []
  {
  }

  predicate SameAngle(s: Angle, t: Angle) {
    s == t || (s.0 == t.2 && s.1 == t.1 && s.2 == t.0)
  }

  // Each entry is an ordered pair of positions i < j of the neighbour list.
  lemma {:induction false} AnglesAtMembers(c: int, ns: seq<int>, n: nat, t: Angle)
    requires n <= |ns|
    ensures t in AnglesAt(c, ns, n) <==> t.1 == c && exists i, j :: 0 <= i < n && i < j < |ns| && t == (ns[i], c, ns[j])
  {
    if n > 0 {
      AnglesAtMembers(c, ns, n - 1, t);
      var last := AnglesFrom(c, ns, n - 1);
      if t.1 == c && exists i, j :: 0 <= i < n && i < j < |ns| && t == (ns[i], c, ns[j]) {
        var i, j :| 0 <= i < n && i < j < |ns| && t == (ns[i], c, ns[j]);
        assert i == n - 1 ==> last[j - n] == t;
      }
      if t in last {
        var j :| 0 <= j < |last| && last[j] == t;
        assert t == (ns[n - 1], c, ns[n + j]);
      }
    }
  }

  // No two entries are the same angle, in either direction.
  ghost predicate OnceUpToReversal(s: seq<Angle>) {
    forall i, j :: 0 <= i < j < |s| ==> !SameAngle(s[i], s[j])
  }

  lemma OnceAppend(s: seq<Angle>, t: seq<Angle>)
    requires OnceUpToReversal(s) && OnceUpToReversal(t)
    requires forall x, y :: x in s && y in t ==> !SameAngle(x, y)
    ensures OnceUpToReversal(s + t)
  {
    forall i, j | 0 <= i < j < |s + t|
      ensures !SameAngle((s + t)[i], (s + t)[j])
    {
      if i < |s| <= j {
        assert s[i] in s && t[j - |s|] in t;
      }
    }
  }

  lemma {:induction false} AnglesAtOnce(c: int, ns: seq<int>, n: nat)
    requires n <= |ns| && Distinct(ns)
    ensures OnceUpToReversal(AnglesAt(c, ns, n))
  {
    if n > 0 {
      AnglesAtOnce(c, ns, n - 1);
      var init, last := AnglesAt(c, ns, n - 1), AnglesFrom(c, ns, n - 1);
      forall x, y | x in init && y in last
        ensures !SameAngle(x, y)
      {
        AnglesAtMembers(c, ns, n - 1, x);
        var i, j :| 0 <= i < n - 1 && i < j < |ns| && x == (ns[i], c, ns[j]);
        var l :| 0 <= l < |last| && last[l] == y;
        assert y == (ns[n - 1], c, ns[n + l]);
      }
      OnceAppend(init, last);
    }
  }

  // Two different neighbours of the middle atom.
  ghost predicate IsAngle(bonds: seq<Bond>, t: Angle) {
    t.0 != t.2 && Bonded(bonds, t.1, t.0) && Bonded(bonds, t.1, t.2)
  }

  lemma AnglesHere(bonds: seq<Bond>, c: int, t: Angle)
    requires Simple(bonds)
    ensures var here := AnglesAt(c, Nbrs(bonds, c), |Nbrs(bonds, c)|);
      && (t in here ==> t.1 == c && IsAngle(bonds, t))
      && (t.1 == c && IsAngle(bonds, t) ==> t in here || (t.2, t.1, t.0) in here)
  {
    hide Nbrs, Simple, AnglesAt, Bonded;
    var ns := Nbrs(bonds, c);
    NbrsDistinct(bonds, c);
    NbrsAreBonded(bonds, c, t.0);
    NbrsAreBonded(bonds, c, t.2);
    AnglesAtMembers(c, ns, |ns|, t);
    AnglesAtMembers(c, ns, |ns|, (t.2, t.1, t.0));
    if t.1 == c && IsAngle(bonds, t) {
      var i :| 0 <= i < |ns| && ns[i] == t.0;
      var j :| 0 <= j < |ns| && ns[j] == t.2;
      assert i < j ==> t == (ns[i], c, ns[j]);
      assert j < i ==> (t.2, t.1, t.0) == (ns[j], c, ns[i]);
    }
  }

  lemma {:induction false} AnglesOverMembers(bonds: seq<Bond>, centers: seq<int>, t: Angle)
    requires Simple(bonds)
    ensures t in AnglesOver(bonds, centers) ==> t.1 in centers && IsAngle(bonds, t)
    ensures t.1 in centers && IsAngle(bonds, t) ==>
      t in AnglesOver(bonds, centers) || (t.2, t.1, t.0) in AnglesOver(bonds, centers)
  {
    hide Nbrs, Simple, AnglesAt, IsAngle;
    if centers != [] {
      AnglesOverMembers(bonds, centers[..|centers| - 1], t);
      AnglesHere(bonds, centers[|centers| - 1], t);
    }
  }

  lemma {:induction false} AnglesOverOnce(bonds: seq<Bond>, centers: seq<int>)
    requires Simple(bonds) && Distinct(centers)
    ensures OnceUpToReversal(AnglesOver(bonds, centers))
  {
    hide Nbrs, Simple, AnglesAt;
    if centers != [] {
      var k := |centers| - 1;
      AnglesOverOnce(bonds, centers[..k]);
      var ns := Nbrs(bonds, centers[k]);
      NbrsDistinct(bonds, centers[k]);
      AnglesAtOnce(centers[k], ns, |ns|);
      forall x, y | x in AnglesOver(bonds, centers[..k]) && y in AnglesAt(centers[k], ns, |ns|)
        ensures !SameAngle(x, y)
      {
        AnglesOverMembers(bonds, centers[..k], x);
        AnglesAtMembers(centers[k], ns, |ns|, y);
      }
      OnceAppend(AnglesOver(bonds, centers[..k]), AnglesAt(centers[k], ns, |ns|));
    }
  }

  /** On a simple bond graph, each pair of different neighbours of each atom forms exactly one angle, in one direction
      or the other, and there is no other angle. */
  lemma AnglesExactlyOnce(bonds: seq<Bond>)
    requires Simple(bonds)
    ensures OnceUpToReversal(Angles(bonds))
    ensures forall x, c, y ::
      ((x, c, y) in Angles(bonds) || (y, c, x) in Angles(bonds))
          <==> x != y && Bonded(bonds, c, x) && Bonded(bonds, c, y)
  {
    hide Simple, AnglesOver, Keys, Bonded;
    KeysAreTouched(bonds);
    AnglesOverOnce(bonds, Keys(bonds));
    forall x, c, y
      ensures ((x, c, y) in Angles(bonds) || (y, c, x) in Angles(bonds)) <==>
        x != y && Bonded(bonds, c, x) && Bonded(bonds, c, y)
    {
      AnglesOverMembers(bonds, Keys(bonds), (x, c, y));
      AnglesOverMembers(bonds, Keys(bonds), (y, c, x));
      NbrsAreBonded(bonds, c, x);
    }
  }

  function Degree(bonds: seq<Bond>, v: int): nat {
    |Nbrs(bonds, v)|
  }

  // Twice the sum of deg * (deg - 1) / 2.
  function PairSum(bonds: seq<Bond>, centers: seq<int>): int {
    if centers == [] then 0
    else
      var k := |centers| - 1;
      PairSum(bonds, centers[..k]) + Degree(bonds, centers[k]) * (Degree(bonds, centers[k]) - 1)
  }

  lemma {:induction false} AnglesAtCount(c: int, ns: seq<int>, n: nat)
    requires n <= |ns|
    ensures 2 * |AnglesAt(c, ns, n)| == n * (2 * |ns| - n - 1)
  {
    if n > 0 {
      AnglesAtCount(c, ns, n - 1);
      PairStep(n, |ns|);
    }
  }

  lemma PairStep(n: int, m: int)
    ensures n * (2 * m - n - 1) == (n - 1) * (2 * m - (n - 1) - 1) + 2 * (m - n)
  {
    var a := 2 * m - n - 1;
    assert n * a == (n - 1) * a + a;
    assert (n - 1) * (a + 1) == (n - 1) * a + (n - 1);
  }

  lemma {:induction false} AnglesCountOver(bonds: seq<Bond>, centers: seq<int>)
    ensures 2 * |AnglesOver(bonds, centers)| == PairSum(bonds, centers)
  {
    hide Nbrs, AnglesAt;
    if centers != [] {
      var k := |centers| - 1;
      AnglesCountOver(bonds, centers[..k]);
      var ns := Nbrs(bonds, centers[k]);
      AnglesAtCount(centers[k], ns, |ns|);
    }
  }

  /** There are deg * (deg - 1) / 2 angles at each atom, on every bond list. */
  lemma AnglesCount(bonds: seq<Bond>)
    ensures 2 * |Angles(bonds)| == PairSum(bonds, Keys(bonds))
  {
    AnglesCountOver(bonds, Keys(bonds));
  }

  // ---------------------------------------------------------------- dihedrals

  // The dihedrals over bond (u, v) that start at x: the fourth atom is a neighbour of v other than u and x.
  function DihedralsFrom(x: int, u: int, v: int, ns: seq<int>): seq<Dihedral> {
    if ns == [] then []
    else
      var k := |ns| - 1;
      DihedralsFrom(x, u, v, ns[..k]) + if ns[k] == u || ns[k] == x then [] else [(x, u, v, ns[k])]
  }

  function DihedralsOn(u: int, v: int, us: seq<int>, vs: seq<int>): seq<Dihedral> {
    if us == [] then []
    else
      var k := |us| - 1;
      DihedralsOn(u, v, us[..k], vs) + if us[k] == v then [] else DihedralsFrom(us[k], u, v, vs)
  }

  function DihedralsOver(graph: seq<Bond>, bonds: seq<Bond>): seq<Dihedral> {
    if bonds == [] then []
    else
      var k := |bonds| - 1;
      DihedralsOver(graph, bonds[..k]) +
      DihedralsOn(bonds[k].a, bonds[k].b, Nbrs(graph, bonds[k].a), Nbrs(graph, bonds[k].b))
  }

  function Dihedrals(bonds: seq<Bond>): seq<Dihedral> {
    DihedralsOver(bonds, bonds)
  }

  method DihedralsStarting(x: int, u: int, v: int, vs: seq<int>) returns (found: seq<Dihedral>)
    ensures found == DihedralsFrom(x, u, v, vs)
  {
    found := [];
    for j := 0 to |vs|
      invariant found == DihedralsFrom(x, u, v, vs[..j])
    {
      assert vs[..j + 1][..j] == vs[..j];
      if vs[j] != u && vs[j] != x {
        found := found + [(x, u, v, vs[j])];
      }
    }
    assert vs[..|vs|] == vs;
  }

  method DihedralsAround(u: int, v: int, us: seq<int>, vs: seq<int>) returns (found: seq<Dihedral>)
    ensures found == DihedralsOn(u, v, us, vs)
  {
    hide DihedralsFrom;
    found := [];
    for i := 0 to |us|
      invariant found == DihedralsOn(u, v, us[..i], vs)
    {
      assert us[..i + 1][..i] == us[..i];
      if us[i] != v {
        var more := DihedralsStarting(us[i], u, v, vs);
        found := found + more;
      }
    }
    assert us[..|us|] == us;
  }

  method GetDihedrals(bonds: seq<Bond>) returns (dihedrals: seq<Dihedral>)
    ensures dihedrals == Dihedrals(bonds)
  {
    hide Nbrs, Keys, DihedralsOn;
    var keys, adj := BuildAdjacency(bonds);
    dihedrals := [];
    for k := 0 to |bonds|
      invariant dihedrals == DihedralsOver(bonds, bonds[..k])
    {
      var u, v := bonds[k].a, bonds[k].b;
      var more := DihedralsAround(u, v, Entry(adj, u), Entry(adj, v));
      dihedrals := dihedrals + more;
      assert bonds[..k + 1][..k] == bonds[..k];
    }
    assert bonds[..|bonds|] == bonds;
  }

  /** A simple path over three bonds: four different atoms. */
  ghost predicate IsPath(bonds: seq<Bond>, t: Dihedral) {
    && Bonded(bonds, t.0, t.1) && Bonded(bonds, t.1, t.2) && Bonded(bonds, t.2, t.3)
    && t.0 != t.1 && t.0 != t.2 && t.0 != t.3 && t.1 != t.2 && t.1 != t.3 && t.2 != t.3
  }

  lemma {:induction false} FromMembers(x: int, u: int, v: int, ns: seq<int>, t: Dihedral)
    ensures t in DihedralsFrom(x, u, v, ns) <==> t == (x, u, v, t.3) && t.3 in ns && t.3 != u && t.3 != x
    ensures Distinct(ns) ==> Distinct(DihedralsFrom(x, u, v, ns))
  {
    if ns != [] {
      var k := |ns| - 1;
      FromMembers(x, u, v, ns[..k], t);
      FromMembers(x, u, v, ns[..k], (x, u, v, ns[k]));
      assert ns == ns[..k] + [ns[k]];
    }
  }

  lemma {:induction false} OnMembers(u: int, v: int, us: seq<int>, vs: seq<int>, t: Dihedral)
    ensures t in DihedralsOn(u, v, us, vs) <==>
      t.1 == u && t.2 == v && t.0 in us && t.0 != v && t.3 in vs && t.3 != u && t.3 != t.0
  {
    if us != [] {
      var k := |us| - 1;
      OnMembers(u, v, us[..k], vs, t);
      FromMembers(us[k], u, v, vs, t);
      OnSnoc(u, v, us, vs);
      hide DihedralsOn, DihedralsFrom;
      InSnoc(us, t.0);
    }
  }

  lemma OnSnoc(u: int, v: int, us: seq<int>, vs: seq<int>)
    requires us != []
    ensures var k := |us| - 1;
      DihedralsOn(u, v, us, vs)
        == DihedralsOn(u, v, us[..k], vs) + if us[k] == v then [] else DihedralsFrom(us[k], u, v, vs)
  {
    hide DihedralsFrom;
  }

  lemma InSnoc(s: seq<int>, x: int)
    requires s != []
    ensures x in s <==> x in s[..|s| - 1] || x == s[|s| - 1]
  {
    assert s == s[..|s| - 1] + [s[|s| - 1]];
  }

  lemma {:induction false} OnDistinct(u: int, v: int, us: seq<int>, vs: seq<int>)
    requires Distinct(us) && Distinct(vs)
    ensures Distinct(DihedralsOn(u, v, us, vs))
  {
    if us != [] {
      var k := |us| - 1;
      OnDistinct(u, v, us[..k], vs);
      var init := DihedralsOn(u, v, us[..k], vs);
      var last := DihedralsFrom(us[k], u, v, vs);
      FromMembers(us[k], u, v, vs, (0, 0, 0, 0));
      forall t | t in init ensures t !in last {
        OnMembers(u, v, us[..k], vs, t);
        FromMembers(us[k], u, v, vs, t);
      }
      DistinctAppend(init, last);
    }
  }

  lemma OnPaths(bonds: seq<Bond>, u: int, v: int, t: Dihedral)
    requires Simple(bonds) && Bonded(bonds, u, v)
    ensures t in DihedralsOn(u, v, Nbrs(bonds, u), Nbrs(bonds, v)) <==> t.1 == u && t.2 == v && IsPath(bonds, t)
  {
    hide DihedralsOn, Simple, Bonded;
    OnMembers(u, v, Nbrs(bonds, u), Nbrs(bonds, v), t);
    NbrsAreBonded(bonds, u, t.0);
    NbrsAreBonded(bonds, v, t.3);
    NbrsDistinct(bonds, u);
    NbrsDistinct(bonds, v);
    NbrsAreBonded(bonds, u, v);
    BondedSymmetric(bonds, t.0, u);
  }

  lemma BondedSymmetric(bonds: seq<Bond>, x: int, y: int)
    ensures Bonded(bonds, x, y) <==> Bonded(bonds, y, x)
  {
    if Bonded(bonds, x, y) {
      var i :| 0 <= i < |bonds| && Joins(bonds[i], x, y);
      assert Joins(bonds[i], y, x);
    }
    if Bonded(bonds, y, x) {
      var i :| 0 <= i < |bonds| && Joins(bonds[i], y, x);
      assert Joins(bonds[i], x, y);
    }
  }

  // Membership in the dihedrals over a part of the bonds of the graph.
  lemma {:induction false} OverMembers(graph: seq<Bond>, bonds: seq<Bond>, t: Dihedral)
    requires Simple(graph) && forall i :: 0 <= i < |bonds| ==> Bonded(graph, bonds[i].a, bonds[i].b)
    ensures t in DihedralsOver(graph, bonds) <==>
      IsPath(graph, t) && exists i :: 0 <= i < |bonds| && bonds[i] == Bond(t.1, t.2)
  {
    hide DihedralsOn, Simple, Bonded, IsPath, Nbrs;
    if bonds != [] {
      var k := |bonds| - 1;
      OverMembers(graph, bonds[..k], t);
      OnPaths(graph, bonds[k].a, bonds[k].b, t);
      if exists i :: 0 <= i < |bonds| && bonds[i] == Bond(t.1, t.2) {
        var i :| 0 <= i < |bonds| && bonds[i] == Bond(t.1, t.2);
        assert i < k ==> bonds[..k][i] == Bond(t.1, t.2);
      }
    }
  }

  lemma OverSnoc(graph: seq<Bond>, bonds: seq<Bond>)
    requires bonds != []
    ensures var k := |bonds| - 1;
      DihedralsOver(graph, bonds) == DihedralsOver(graph, bonds[..k]) + OnBond(graph, bonds[k])
  {
  }

  // The dihedrals over one bond of the graph.
  function OnBond(graph: seq<Bond>, bond: Bond): seq<Dihedral> {
    DihedralsOn(bond.a, bond.b, Nbrs(graph, bond.a), Nbrs(graph, bond.b))
  }

  lemma OnBondDistinct(graph: seq<Bond>, bond: Bond)
    requires Simple(graph)
    ensures Distinct(OnBond(graph, bond))
  {
    hide DihedralsOn, Nbrs, Simple;
    NbrsDistinct(graph, bond.a);
    NbrsDistinct(graph, bond.b);
    OnDistinct(bond.a, bond.b, Nbrs(graph, bond.a), Nbrs(graph, bond.b));
  }

  // A dihedral listed over earlier bonds does not turn up over the last one.
  lemma NotAgain(graph: seq<Bond>, bonds: seq<Bond>, t: Dihedral)
    requires Simple(graph) && Simple(bonds) && bonds != []
    requires forall i :: 0 <= i < |bonds| ==> Bonded(graph, bonds[i].a, bonds[i].b)
    requires t in DihedralsOver(graph, bonds[..|bonds| - 1])
    ensures t !in OnBond(graph, bonds[|bonds| - 1])
  {
    var k := |bonds| - 1;
    OverMembers(graph, bonds[..k], t);
    var i :| 0 <= i < k && bonds[..k][i] == Bond(t.1, t.2);
    assert !Joins(bonds[k], bonds[i].a, bonds[i].b);
    hide DihedralsOn, DihedralsOver, Bonded, IsPath, Nbrs, Simple;
    OnPaths(graph, bonds[k].a, bonds[k].b, t);
  }

  lemma {:induction false} OverDistinct(graph: seq<Bond>, bonds: seq<Bond>)
    requires Simple(graph) && Simple(bonds) && forall i :: 0 <= i < |bonds| ==> Bonded(graph, bonds[i].a, bonds[i].b)
    ensures Distinct(DihedralsOver(graph, bonds))
  {
    if bonds != [] {
      var k := |bonds| - 1;
      SimplePrefix(bonds, k);
      hide DihedralsOver, OnBond, Bonded, Simple, Common.Distinct;
      OverDistinct(graph, bonds[..k]);
      OnBondDistinct(graph, bonds[k]);
      forall t | t in DihedralsOver(graph, bonds[..k]) ensures t !in OnBond(graph, bonds[k]) {
        NotAgain(graph, bonds, t);
      }
      OverSnoc(graph, bonds);
      DistinctAppend(DihedralsOver(graph, bonds[..k]), OnBond(graph, bonds[k]));
    }
  }

  lemma EachBonded(bonds: seq<Bond>)
    ensures forall i :: 0 <= i < |bonds| ==> Bonded(bonds, bonds[i].a, bonds[i].b)
  {
    forall i | 0 <= i < |bonds| ensures Bonded(bonds, bonds[i].a, bonds[i].b) {
      assert Joins(bonds[i], bonds[i].a, bonds[i].b);
    }
  }

  function Reversed(t: Dihedral): Dihedral {
    (t.3, t.2, t.1, t.0)
  }

  /** On a simple bond graph, each simple path over three bonds is listed exactly once, in one direction or the other,
      and nothing else is listed. */
  lemma DihedralsExactlyOnce(bonds: seq<Bond>)
    requires Simple(bonds)
    ensures forall i, j :: 0 <= i < j < |Dihedrals(bonds)| ==>
      Dihedrals(bonds)[i] != Dihedrals(bonds)[j] && Dihedrals(bonds)[i] != Reversed(Dihedrals(bonds)[j])
    ensures forall t :: t in Dihedrals(bonds) || Reversed(t) in Dihedrals(bonds) <==> IsPath(bonds, t)
  {
    hide DihedralsOver, Nbrs, Bonded;
    EachBonded(bonds);
    OverDistinct(bonds, bonds);
    var ds := Dihedrals(bonds);
    forall i, j | 0 <= i < j < |ds|
      ensures ds[i] != ds[j] && ds[i] != Reversed(ds[j])
    {
      OverMembers(bonds, bonds, ds[i]);
      OverMembers(bonds, bonds, ds[j]);
      var k :| 0 <= k < |bonds| && bonds[k] == Bond(ds[i].1, ds[i].2);
      var l :| 0 <= l < |bonds| && bonds[l] == Bond(ds[j].1, ds[j].2);
      assert k < l ==> !Joins(bonds[l], bonds[k].a, bonds[k].b);
      assert l < k ==> !Joins(bonds[k], bonds[l].a, bonds[l].b);
    }
    forall t
      ensures t in ds || Reversed(t) in ds <==> IsPath(bonds, t)
    {
      PathListed(bonds, t);
    }
  }

  lemma PathListed(bonds: seq<Bond>, t: Dihedral)
    requires Simple(bonds)
    ensures t in Dihedrals(bonds) || Reversed(t) in Dihedrals(bonds) <==> IsPath(bonds, t)
  {
    hide DihedralsOver, Nbrs, Simple, Bonded;
    EachBonded(bonds);
    OverMembers(bonds, bonds, t);
    OverMembers(bonds, bonds, Reversed(t));
    PathReversed(bonds, t);
    if IsPath(bonds, t) {
      MiddleBond(bonds, t.1, t.2);
    }
  }

  lemma PathReversed(bonds: seq<Bond>, t: Dihedral)
    ensures IsPath(bonds, Reversed(t)) <==> IsPath(bonds, t)
  {
    hide Bonded;
    BondedSymmetric(bonds, t.0, t.1);
    BondedSymmetric(bonds, t.1, t.2);
    BondedSymmetric(bonds, t.2, t.3);
  }

  lemma MiddleBond(bonds: seq<Bond>, x: int, y: int)
    requires Bonded(bonds, x, y)
    ensures exists i :: 0 <= i < |bonds| && (bonds[i] == Bond(x, y) || bonds[i] == Bond(y, x))
  {
    var i :| 0 <= i < |bonds| && Joins(bonds[i], x, y);
    assert bonds[i] == Bond(x, y) || bonds[i] == Bond(y, x);
  }

  // ---------------------------------------------------------------- how many dihedrals

  function One(b: bool): nat {
    if b then 1 else 0
  }

  lemma {:induction false} FromCount(x: int, u: int, v: int, ns: seq<int>)
    requires Distinct(ns) && x != u
    ensures |DihedralsFrom(x, u, v, ns)| == |ns| - One(u in ns) - One(x in ns)
  {
    if ns != [] {
      var k := |ns| - 1;
      FromCount(x, u, v, ns[..k]);
      assert ns == ns[..k] + [ns[k]];
      assert ns[k] !in ns[..k];
    }
  }

  ghost function Shared(us: seq<int>, vs: seq<int>): set<int> {
    set w | w in us && w in vs
  }

  lemma SharedSnoc(us: seq<int>, vs: seq<int>)
    requires us != [] && Distinct(us)
    ensures var k := |us| - 1; |Shared(us, vs)| == |Shared(us[..k], vs)| + One(us[k] in vs)
  {
    var k := |us| - 1;
    assert us == us[..k] + [us[k]];
    assert us[k] !in us[..k];
    if us[k] in vs {
      assert Shared(us, vs) == Shared(us[..k], vs) + {us[k]};
    } else {
      assert Shared(us, vs) == Shared(us[..k], vs);
    }
  }

  function Times(n: int, m: int): int {
    n * m
  }

  lemma {:induction false} OnCount(u: int, v: int, us: seq<int>, vs: seq<int>)
    requires Distinct(us) && Distinct(vs) && u in vs && u !in us && v !in vs
    ensures |DihedralsOn(u, v, us, vs)| == Times(|us| - One(v in us), |vs| - 1) - |Shared(us, vs)|
  {
    if us == [] {
      assert Shared(us, vs) == {};
    } else {
      hide *;
      var k := |us| - 1;
      DistinctFront(us);
      NotInFront(us, u);
      OnCount(u, v, us[..k], vs);
      SharedSnoc(us, vs);
      FromCount(us[k], u, v, vs);
      OnSnoc(u, v, us, vs);
      InSnoc(us, v);
      TimesStep(k - One(v in us[..k]), |vs| - 1);
      OneIs(u in vs);
      OneIs(us[k] == v);
    }
  }

  lemma OneIs(b: bool)
    ensures One(b) == if b then 1 else 0
  {
  }

  lemma NotInFront(us: seq<int>, u: int)
    requires us != [] && u !in us
    ensures u !in us[..|us| - 1] && us[|us| - 1] != u
  {
  }

  lemma DistinctFront(s: seq<int>)
    requires Distinct(s) && s != []
    ensures Distinct(s[..|s| - 1]) && s[|s| - 1] !in s[..|s| - 1]
  {
  }

  lemma TimesStep(n: int, m: int)
    ensures Times(n + 1, m) == Times(n, m) + m
  {
  }

  // The sum of (deg u - 1) * (deg v - 1) over the bonds.
  function DegreeProducts(graph: seq<Bond>, bonds: seq<Bond>): int {
    if bonds == [] then 0
    else
      var k := |bonds| - 1;
      DegreeProducts(graph, bonds[..k]) + (Degree(graph, bonds[k].a) - 1) * (Degree(graph, bonds[k].b) - 1)
  }

  // Common neighbours of the two ends of a bond.
  ghost function CommonNeighbours(graph: seq<Bond>, bond: Bond): set<int> {
    Shared(Nbrs(graph, bond.a), Nbrs(graph, bond.b))
  }

  ghost function CommonSum(graph: seq<Bond>, bonds: seq<Bond>): nat {
    if bonds == [] then 0
    else CommonSum(graph, bonds[..|bonds| - 1]) + |CommonNeighbours(graph, bonds[|bonds| - 1])|
  }

  lemma BondCount(graph: seq<Bond>, bond: Bond)
    requires Simple(graph) && Bonded(graph, bond.a, bond.b)
    ensures |DihedralsOn(bond.a, bond.b, Nbrs(graph, bond.a), Nbrs(graph, bond.b))|
      == (Degree(graph, bond.a) - 1) * (Degree(graph, bond.b) - 1) - |CommonNeighbours(graph, bond)|
  {
    hide DihedralsOn, Nbrs, Simple, Bonded, Shared;
    var u, v := bond.a, bond.b;
    NbrsDistinct(graph, u);
    NbrsDistinct(graph, v);
    NbrsAreBonded(graph, u, v);
    NbrsAreBonded(graph, v, u);
    BondedSymmetric(graph, u, v);
    OnCount(u, v, Nbrs(graph, u), Nbrs(graph, v));
  }

  lemma {:induction false} OverCount(graph: seq<Bond>, bonds: seq<Bond>)
    requires Simple(graph) && forall i :: 0 <= i < |bonds| ==> Bonded(graph, bonds[i].a, bonds[i].b)
    ensures |DihedralsOver(graph, bonds)| == DegreeProducts(graph, bonds) - CommonSum(graph, bonds)
  {
    hide DihedralsOn, Nbrs, Simple, Bonded, CommonNeighbours, Degree;
    if bonds != [] {
      var k := |bonds| - 1;
      OverCount(graph, bonds[..k]);
      BondCount(graph, bonds[k]);
    }
  }

  // ---------------------------------------------------------------- triangles

  type Triple = (int, int, int)

  ghost predicate IsTriangle(bonds: seq<Bond>, t: Triple) {
    t.0 < t.1 < t.2 && Bonded(bonds, t.0, t.1) && Bonded(bonds, t.1, t.2) && Bonded(bonds, t.0, t.2)
  }

  /** The triangles of the graph, as increasing triples of atoms. */
  ghost function Triangles(bonds: seq<Bond>): set<Triple> {
    set x, y, z | x in Keys(bonds) && y in Keys(bonds) && z in Keys(bonds) && IsTriangle(bonds, (x, y, z)) :: (x, y, z)
  }

  lemma TrianglesHold(bonds: seq<Bond>, t: Triple)
    ensures t in Triangles(bonds) <==> IsTriangle(bonds, t)
  {
    if IsTriangle(bonds, t) {
      KeysAreTouched(bonds);
      NbrsAreBonded(bonds, t.0, t.1);
      NbrsAreBonded(bonds, t.1, t.2);
      BondedSymmetric(bonds, t.1, t.2);
      NbrsAreBonded(bonds, t.2, t.1);
      assert (t.0, t.1, t.2) in Triangles(bonds);
    }
  }

  // A corner of a triangle: a bond, by position, and a common neighbour of its ends.
  ghost function Corners(graph: seq<Bond>, bonds: seq<Bond>): set<(int, int)> {
    set i, w | 0 <= i < |bonds| && w in CommonNeighbours(graph, bonds[i]) :: (i, w)
  }

  ghost function CornersAt(i: int, ws: set<int>): set<(int, int)> {
    set w | w in ws :: (i, w)
  }

  lemma {:induction false} CornersAtCount(i: int, ws: set<int>)
    ensures |CornersAt(i, ws)| == |ws|
  {
    if ws == {} {
      assert CornersAt(i, ws) == {};
    } else {
      var w := SomeMember(ws);
      CornersAtCount(i, ws - {w});
      assert CornersAt(i, ws) == CornersAt(i, ws - {w}) + {(i, w)};
    }
  }

  lemma {:induction false} CornersCount(graph: seq<Bond>, bonds: seq<Bond>)
    ensures |Corners(graph, bonds)| == CommonSum(graph, bonds)
  {
    hide CommonNeighbours;
    if bonds == [] {
      assert Corners(graph, bonds) == {};
    } else {
      var k := |bonds| - 1;
      CornersCount(graph, bonds[..k]);
      CornersAtCount(k, CommonNeighbours(graph, bonds[k]));
      var init, last := Corners(graph, bonds[..k]), CornersAt(k, CommonNeighbours(graph, bonds[k]));
      assert Corners(graph, bonds) == init + last;
      assert init !! last;
    }
  }

  // The position of the corner's atom among the three: lowest, middle or highest.
  function Place(bond: Bond, w: int): int {
    if w < bond.a && w < bond.b then 0 else if w > bond.a && w > bond.b then 2 else 1
  }

  function Sorted(bond: Bond, w: int): Triple {
    var lo, hi := Min(bond.a, bond.b), Max(bond.a, bond.b);
    if w < lo then (w, lo, hi) else if w > hi then (lo, hi, w) else (lo, w, hi)
  }

  lemma CornerFacts(bonds: seq<Bond>, i: nat, w: int)
    requires Simple(bonds) && i < |bonds|
    ensures w in CommonNeighbours(bonds, bonds[i]) <==>
      w != bonds[i].a && w != bonds[i].b && bonds[i].a != bonds[i].b
      && Bonded(bonds, w, bonds[i].a) && Bonded(bonds, w, bonds[i].b)
  {
    hide Bonded, Nbrs;
    NbrsAreBonded(bonds, bonds[i].a, w);
    NbrsAreBonded(bonds, bonds[i].b, w);
    BondedSymmetric(bonds, w, bonds[i].a);
    BondedSymmetric(bonds, w, bonds[i].b);
    NbrsDistinct(bonds, bonds[i].a);
    NbrsDistinct(bonds, bonds[i].b);
  }

  lemma SortedIsTriangle(bonds: seq<Bond>, i: nat, w: int)
    requires Simple(bonds) && i < |bonds| && w in CommonNeighbours(bonds, bonds[i])
    ensures IsTriangle(bonds, Sorted(bonds[i], w))
  {
    hide Bonded, CommonNeighbours, Simple;
    CornerFacts(bonds, i, w);
    EachBonded(bonds);
    var a, b := bonds[i].a, bonds[i].b;
    BondedSymmetric(bonds, a, b);
    BondedSymmetric(bonds, w, a);
    BondedSymmetric(bonds, w, b);
  }

  ghost function CornersPlaced(bonds: seq<Bond>, place: int): set<(int, int)> {
    set c | c in Corners(bonds, bonds) && Place(bonds[c.0], c.1) == place
  }

  // The corner at a given place of a triangle.
  function Third(t: Triple, place: int): int {
    if place == 0 then t.0 else if place == 1 then t.1 else t.2
  }

  function Opposite(t: Triple, place: int): (int, int) {
    if place == 0 then (t.1, t.2) else if place == 1 then (t.0, t.2) else (t.0, t.1)
  }

  lemma CornerOfTriangle(bonds: seq<Bond>, t: Triple, place: int)
    requires Simple(bonds) && IsTriangle(bonds, t) && 0 <= place <= 2
    ensures exists c :: c in CornersPlaced(bonds, place) && Sorted(bonds[c.0], c.1) == t
  {
    hide Simple, CommonNeighbours;
    var (x, y) := Opposite(t, place);
    var w := Third(t, place);
    var i :| 0 <= i < |bonds| && Joins(bonds[i], x, y);
    hide Bonded;
    BondedSymmetric(bonds, t.0, t.1);
    BondedSymmetric(bonds, t.1, t.2);
    BondedSymmetric(bonds, t.0, t.2);
    CornerFacts(bonds, i, w);
    assert (i, w) in CornersPlaced(bonds, place) && Sorted(bonds[(i, w).0], (i, w).1) == t;
  }

  lemma SortedInjective(bonds: seq<Bond>, c: (int, int), d: (int, int), place: int)
    requires Simple(bonds) && c in CornersPlaced(bonds, place) && d in CornersPlaced(bonds, place)
    requires Sorted(bonds[c.0], c.1) == Sorted(bonds[d.0], d.1)
    ensures c == d
  {
    CornerFacts(bonds, c.0, c.1);
    CornerFacts(bonds, d.0, d.1);
    SameBond(bonds, c.0, d.0);
  }

  lemma SameBond(bonds: seq<Bond>, i: nat, j: nat)
    requires Simple(bonds) && i < |bonds| && j < |bonds| && Joins(bonds[i], bonds[j].a, bonds[j].b)
    ensures i == j
  {
    assert i < j ==> !Joins(bonds[j], bonds[i].a, bonds[i].b);
  }

  ghost function CornerAt(bonds: seq<Bond>, t: Triple, place: int): (c: (int, int))
    requires Simple(bonds) && IsTriangle(bonds, t) && 0 <= place <= 2
    ensures c in CornersPlaced(bonds, place) && Sorted(bonds[c.0], c.1) == t
  {
    CornerOfTriangle(bonds, t, place);
    var c :| c in CornersPlaced(bonds, place) && Sorted(bonds[c.0], c.1) == t;
    c
  }

  // At each of the three places there is exactly one corner per triangle.
  lemma CornersPerPlace(bonds: seq<Bond>, place: int)
    requires Simple(bonds) && 0 <= place <= 2
    ensures |CornersPlaced(bonds, place)| == |Triangles(bonds)|
  {
    hide Simple, IsTriangle, Triangles, Sorted;
    var cs, ts := CornersPlaced(bonds, place), Triangles(bonds);
    forall c | c in cs ensures Sorted(bonds[c.0], c.1) in ts {
      SortedIsTriangle(bonds, c.0, c.1);
      TrianglesHold(bonds, Sorted(bonds[c.0], c.1));
    }
    var f := map c | c in cs :: Sorted(bonds[c.0], c.1);
    forall c, d | c in cs && d in cs && f[c] == f[d] ensures c == d {
      SortedInjective(bonds, c, d, place);
    }
    InjectionBoundsCard(cs, ts, f);
    forall t | t in ts ensures IsTriangle(bonds, t) {
      TrianglesHold(bonds, t);
    }
    var g := map t | t in ts :: CornerAt(bonds, t, place);
    InjectionBoundsCard(ts, cs, g);
  }

  /** Each triangle has three corners. */
  lemma CornersAreTriangles(bonds: seq<Bond>)
    requires Simple(bonds)
    ensures |Corners(bonds, bonds)| == 3 * |Triangles(bonds)|
  {
    hide Simple, Triangles, Corners;
    CornersPerPlace(bonds, 0);
    CornersPerPlace(bonds, 1);
    CornersPerPlace(bonds, 2);
    var a, b, c := CornersPlaced(bonds, 0), CornersPlaced(bonds, 1), CornersPlaced(bonds, 2);
    assert Corners(bonds, bonds) == a + b + c;
    assert a !! b && (a + b) !! c;
  }

  /** The number of dihedrals: the sum of (deg u - 1) * (deg v - 1) over the bonds, less three for every triangle. */
  lemma DihedralsCount(bonds: seq<Bond>)
    requires Simple(bonds)
    ensures |Dihedrals(bonds)| == DegreeProducts(bonds, bonds) - 3 * |Triangles(bonds)|
  {
    hide Simple, Triangles, Corners, DihedralsOver;
    EachBonded(bonds);
    OverCount(bonds, bonds);
    CornersCount(bonds, bonds);
    CornersAreTriangles(bonds);
  }
}
