/** Inorganic typing with a persistent cache: a hit must be indistinguishable from recomputing, including what it
    does to the atoms of the topology.

    The parameter service is a function of the structure, the profile and whether the additive is admitted at all; keys
    are collision-free, so a key is the triple it is hashed from; storing and loading a payload keeps its values.
 */
module InorganicCache {
  import opened Common

  const SCHEMA_VERSION := 1

  // ---------------------------------------------------------------- topologies

  // The identity of an atom, which typing never changes.
  datatype AtomKey = AtomKey(index: int, element: string)

  datatype Typing = Typing(ffType: string, charge: real, defined: bool)

  class Atom {
    const key: AtomKey
    var typing: Typing

    constructor (key: AtomKey, typing: Typing)
      ensures this.key == key && this.typing == typing
    {
      this.key, this.typing := key, typing;
    }
  }

  // What the service sees of a molecule: atoms in order, and bonds.
  datatype Structure = Structure(atoms: seq<AtomKey>, bonds: seq<(int, int)>)

  class Topology {
    const atoms: seq<Atom>
    const bonds: seq<(int, int)>

    constructor (atoms: seq<Atom>, bonds: seq<(int, int)>)
      ensures this.atoms == atoms && this.bonds == bonds
    {
      this.atoms, this.bonds := atoms, bonds;
    }

    function StructureOf(): (s: Structure)
      ensures |s.atoms| == |atoms| && forall k :: 0 <= k < |atoms| ==> s.atoms[k] == atoms[k].key
    {
      Structure(seq(|atoms|, k requires 0 <= k < |atoms| => atoms[k].key), bonds)
    }

    function Typings(): (ts: seq<Typing>)
      reads atoms
      ensures |ts| == |atoms| && forall k :: 0 <= k < |atoms| ==> ts[k] == atoms[k].typing
    {
      seq(|atoms|, k requires 0 <= k < |atoms| reads atoms => atoms[k].typing)
    }
  }

  // ---------------------------------------------------------------- the service

  type Coeffs = map<string, map<string, real>>

  datatype Site = Site(ffType: string, charge: real)

  datatype Assignment = Assignment(
    sites: seq<Site>, totalCharge: real, atomCoeffs: Coeffs, bondCoeffs: Coeffs, angleCoeffs: Coeffs,
    dihedralPolicy: string, philosophy: string)

  // A failing assignment may already have typed some of the atoms.
  datatype Outcome = Assigned(a: Assignment) | Failed(reason: string, typed: seq<Site>)

  /** The parameter service: the version of a profile, and what it assigns to a structure.  Additives that are
      blocked or use another typing path are refused before anything else. */
  datatype Service = Service(version: string -> string, assign: (Structure, string) -> Outcome, refused: Outcome)
  {
    ghost predicate WellFormed() {
      && refused.Failed? && refused.typed == []
      && (forall s, p :: assign(s, p).Assigned? ==> |assign(s, p).a.sites| == |s.atoms|)
      && (forall s, p :: assign(s, p).Failed? ==> |assign(s, p).typed| <= |s.atoms|)
    }

    function Compute(s: Structure, profileId: string, admitted: bool): Outcome {
      if admitted then assign(s, profileId) else refused
    }
  }

  datatype Bundle = Bundle(
    profileId: string, profileVersion: string, totalCharge: real, atomCoeffs: Coeffs, bondCoeffs: Coeffs,
    angleCoeffs: Coeffs, dihedralPolicy: string, cacheHit: bool, philosophy: string)

  function BundleOf(a: Assignment, profileId: string, version: string): Bundle {
    Bundle(profileId, version, a.totalCharge, a.atomCoeffs, a.bondCoeffs, a.angleCoeffs, a.dihedralPolicy, false,
           a.philosophy)
  }

  // Atoms after the first |sites| of them were typed.
  function Typed(before: seq<Typing>, sites: seq<Site>): (after: seq<Typing>)
    requires |sites| <= |before|
    ensures |after| == |before|
  {
    seq(|before|, k requires 0 <= k < |before| =>
      if k < |sites| then Typing(sites[k].ffType, sites[k].charge, true) else before[k])
  }

  // ---------------------------------------------------------------- the store

  // The key is hashed from the content of the molecule file and the profile with its version.
  datatype Key = Key(fileHash: string, profileId: string, profileVersion: string)

  datatype CachedAtom = CachedAtom(key: AtomKey, site: Site)

  datatype Payload = Payload(
    schemaVersion: int, profileId: string, profileVersion: string, atoms: seq<CachedAtom>, totalCharge: real,
    dihedralPolicy: string, philosophy: string, atomCoeffs: Coeffs, bondCoeffs: Coeffs, angleCoeffs: Coeffs)

  // What the store holds on disk; None is a file that cannot be read back.
  type Store = map<Key, Option<Payload>>

  function Lookup(store: Store, k: Key): Option<Payload> {
    if k in store then store[k] else None
  }

  function Serialize(s: Structure, a: Assignment, profileId: string, version: string): Payload
    requires |a.sites| == |s.atoms|
  {
    Payload(SCHEMA_VERSION, profileId, version,
            seq(|s.atoms|, k requires 0 <= k < |s.atoms| => CachedAtom(s.atoms[k], a.sites[k])),
            a.totalCharge, a.dihedralPolicy, a.philosophy, a.atomCoeffs, a.bondCoeffs, a.angleCoeffs)
  }

  predicate AtomsMatch(cached: seq<CachedAtom>, s: Structure) {
    |cached| == |s.atoms| && forall k :: 0 <= k < |cached| ==> cached[k].key == s.atoms[k]
  }

  // The checks a payload has to pass before it is used.
  predicate Usable(p: Payload, s: Structure, profileId: string, version: string) {
    && p.schemaVersion == SCHEMA_VERSION && p.profileId == profileId && p.profileVersion == version
    && AtomsMatch(p.atoms, s)
  }

  /** When an entry is used: schema version 1, the profile and its version as asked for, and the same atoms in the same
      order. */
  lemma UsableIff(p: Payload, s: Structure, profileId: string, version: string)
    ensures Usable(p, s, profileId, version) <==>
      && p.schemaVersion == 1 && p.profileId == profileId && p.profileVersion == version
      && |p.atoms| == |s.atoms|
      && forall k :: 0 <= k < |s.atoms| ==>
           p.atoms[k].key.index == s.atoms[k].index && p.atoms[k].key.element == s.atoms[k].element
  {
  }

  // An empty stored string reads back as the default.
  function OrDefault(s: string, default: string): string {
    if s == "" then default else s
  }

  function SitesOf(p: Payload): (sites: seq<Site>)
    ensures |sites| == |p.atoms|
  {
    seq(|p.atoms|, k requires 0 <= k < |p.atoms| => p.atoms[k].site)
  }

  function CachedBundle(p: Payload, profileId: string, version: string): Bundle {
    Bundle(profileId, version, p.totalCharge, p.atomCoeffs, p.bondCoeffs, p.angleCoeffs,
           OrDefault(p.dihedralPolicy, "strict"), true, OrDefault(p.philosophy, "full"))
  }

  // ---------------------------------------------------------------- one call, on values

  datatype Request = Request(structure: Structure, fileHash: Option<string>, profileId: string, admitted: bool)

  function KeyOf(svc: Service, r: Request): Option<Key> {
    if r.fileHash.None? then None
    else Some(Key(r.fileHash.value, r.profileId, svc.version(r.profileId)))
  }

  // The entry a call would use.
  function HitFor(svc: Service, store: Store, r: Request): Option<Payload> {
    var k := KeyOf(svc, r);
    if k.None? then None
    else
      var p := Lookup(store, k.value);
      if p.Some? && Usable(p.value, r.structure, r.profileId, svc.version(r.profileId)) then p else None
  }

  datatype Answer = Answer(bundle: Result<Bundle, string>, typings: seq<Typing>)

  // Always recomputing.
  function Recomputed(svc: Service, r: Request, before: seq<Typing>): Answer
    requires svc.WellFormed() && |before| == |r.structure.atoms|
  {
    match svc.Compute(r.structure, r.profileId, r.admitted)
    case Assigned(a) => Answer(Success(BundleOf(a, r.profileId, svc.version(r.profileId))), Typed(before, a.sites))
    case Failed(reason, typed) => Answer(Failure(reason), Typed(before, typed))
  }

  // With the cache.
  function Cached(svc: Service, store: Store, r: Request, before: seq<Typing>): Answer
    requires svc.WellFormed() && |before| == |r.structure.atoms|
  {
    var hit := HitFor(svc, store, r);
    if hit.Some? then
      Answer(Success(CachedBundle(hit.value, r.profileId, svc.version(r.profileId))), Typed(before, SitesOf(hit.value)))
    else Recomputed(svc, r, before)
  }

  // The store after a call; the write may fail.
  function StoreAfter(svc: Service, store: Store, r: Request, dropped: bool): Store
    requires svc.WellFormed()
  {
    var k := KeyOf(svc, r);
    var outcome := svc.Compute(r.structure, r.profileId, r.admitted);
    if HitFor(svc, store, r).Some? || outcome.Failed? || k.None? || dropped then store
    else store[k.value := Some(Serialize(r.structure, outcome.a, r.profileId, svc.version(r.profileId)))]
  }

  // ---------------------------------------------------------------- the mutating implementation

  class TypingCache {
    var store: Store

    constructor ()
      ensures store == map[]
    {
      store := map[];
    }
  }

  method TypeAtoms(topology: Topology, sites: seq<Site>)
    requires |sites| <= |topology.atoms| && Distinct(topology.atoms)
    modifies topology.atoms
    ensures topology.Typings() == Typed(old(topology.Typings()), sites)
  {
    ghost var before := topology.Typings();
    for i := 0 to |sites|
      invariant forall k :: 0 <= k < i ==> topology.atoms[k].typing == Typing(sites[k].ffType, sites[k].charge, true)
      invariant forall k :: i <= k < |topology.atoms| ==> topology.atoms[k].typing == before[k]
    {
      topology.atoms[i].typing := Typing(sites[i].ffType, sites[i].charge, true);
    }
  }

  /** Uses a cached payload when it passes all checks; a rejected payload leaves the topology as it was. */
  method ApplyCached(topology: Topology, p: Payload, profileId: string, version: string) returns (res: Option<Bundle>)
    requires Distinct(topology.atoms)
    modifies topology.atoms
    ensures res.Some? <==> Usable(p, topology.StructureOf(), profileId, version)
    ensures res.Some? ==>
      res.value == CachedBundle(p, profileId, version)
          && topology.Typings() == Typed(old(topology.Typings()), SitesOf(p))
    ensures res.None? ==> topology.Typings() == old(topology.Typings())
  {
    if p.schemaVersion != SCHEMA_VERSION || p.profileId != profileId || p.profileVersion != version {
      return None;
    }
    if |p.atoms| != |topology.atoms| {
      return None;
    }
    for k := 0 to |p.atoms|
      invariant forall j :: 0 <= j < k ==> p.atoms[j].key == topology.StructureOf().atoms[j]
      invariant topology.Typings() == old(topology.Typings())
    {
      if p.atoms[k].key != topology.atoms[k].key {
        return None;
      }
    }
    TypeAtoms(topology, SitesOf(p));
    return Some(CachedBundle(p, profileId, version));
  }

  /** Looks the assignment up, applies it or recomputes it, and stores what was recomputed. */
  method AssignWithCache(svc: Service, cache: TypingCache, topology: Topology, fileHash: Option<string>,
                         profileId: string, admitted: bool, dropped: bool)
    returns (bundle: Result<Bundle, string>)
    requires svc.WellFormed() && Distinct(topology.atoms)
    modifies cache, topology.atoms
    ensures var r := Request(topology.StructureOf(), fileHash, profileId, admitted);
      && Answer(bundle, topology.Typings()) == Cached(svc, old(cache.store), r, old(topology.Typings()))
      && cache.store == StoreAfter(svc, old(cache.store), r, dropped)
  {
    hide Typed, Serialize, SitesOf;
    var s := topology.StructureOf();
    var version := svc.version(profileId);
    if fileHash.Some? {
      var found := Lookup(cache.store, Key(fileHash.value, profileId, version));
      if found.Some? {
        var applied := ApplyCached(topology, found.value, profileId, version);
        if applied.Some? {
          return Success(applied.value);
        }
      }
    }
    match svc.Compute(s, profileId, admitted) {
      case Failed(reason, typed) =>
        TypeAtoms(topology, typed);
        return Failure(reason);
      case Assigned(a) =>
        TypeAtoms(topology, a.sites);
        if fileHash.Some? && !dropped {
          var entry := Serialize(s, a, profileId, version);
          cache.store := cache.store[Key(fileHash.value, profileId, version) := Some(entry)];
        }
        return Success(BundleOf(a, profileId, version));
    }
  }

  // ---------------------------------------------------------------- transparency

  /** The molecule file determines the structure that is parsed from it. */
  ghost predicate Consistent(parse: string -> Structure, r: Request) {
    r.fileHash.Some? ==> parse(r.fileHash.value) == r.structure
  }

  // Every readable entry is what the service computes for its key.
  ghost predicate Honest(svc: Service, parse: string -> Structure, store: Store) {
    forall k :: k in store && store[k].Some? ==>
      && k.profileVersion == svc.version(k.profileId)
      && svc.assign(parse(k.fileHash), k.profileId).Assigned?
      && |svc.assign(parse(k.fileHash), k.profileId).a.sites| == |parse(k.fileHash).atoms|
      && store[k].value
           == Serialize(parse(k.fileHash), svc.assign(parse(k.fileHash), k.profileId).a, k.profileId, k.profileVersion)
  }

  function SameButHit(b: Result<Bundle, string>): Result<Bundle, string> {
    if b.Success? then Success(b.value.(cacheHit := false)) else b
  }

  /** What happens between calls, or a call. */
  datatype Event =
    | Call(r: Request, dropped: bool)
    | Corrupt(k: Key)
    | Evict(k: Key)

  function Step(svc: Service, store: Store, e: Event): Store
    requires svc.WellFormed()
  {
    match e
    case Call(r, dropped) => StoreAfter(svc, store, r, dropped)
    case Corrupt(k) => store[k := None]
    case Evict(k) => store - {k}
  }

  function StoreOf(svc: Service, events: seq<Event>): Store
    requires svc.WellFormed()
  {
    if events == [] then map[] else Step(svc, StoreOf(svc, events[..|events| - 1]), events[|events| - 1])
  }

  lemma HonestCall(svc: Service, parse: string -> Structure, store: Store, r: Request, dropped: bool)
    requires svc.WellFormed() && Honest(svc, parse, store) && Consistent(parse, r)
    ensures Honest(svc, parse, StoreAfter(svc, store, r, dropped))
  {
    hide Serialize, HitFor;
  }

  /** Starting from an empty store, whatever is dropped, corrupted or evicted, every readable entry is honest. */
  lemma {:induction false} AlwaysHonest(svc: Service, parse: string -> Structure, events: seq<Event>)
    requires svc.WellFormed()
    requires forall i :: 0 <= i < |events| && events[i].Call? ==> Consistent(parse, events[i].r)
    ensures Honest(svc, parse, StoreOf(svc, events))
  {
    if events != [] {
      hide StoreAfter, Serialize, Consistent;
      var n := |events| - 1;
      AlwaysHonest(svc, parse, events[..n]);
      if events[n].Call? {
        HonestCall(svc, parse, StoreOf(svc, events[..n]), events[n].r, events[n].dropped);
      }
    }
  }

  // A usable entry answers with what the service computes.
  lemma {:induction false} HitIsHonest(svc: Service, parse: string -> Structure, store: Store, r: Request)
    requires svc.WellFormed() && Honest(svc, parse, store) && Consistent(parse, r)
    requires HitFor(svc, store, r).Some?
    ensures svc.assign(r.structure, r.profileId).Assigned?
    ensures HitFor(svc, store, r).value
      == Serialize(r.structure, svc.assign(r.structure, r.profileId).a, r.profileId, svc.version(r.profileId))
  {
    hide Serialize, Usable;
  }

  lemma SerializedSites(s: Structure, a: Assignment, profileId: string, version: string)
    requires |a.sites| == |s.atoms|
    ensures SitesOf(Serialize(s, a, profileId, version)) == a.sites
    ensures Usable(Serialize(s, a, profileId, version), s, profileId, version)
  {
  }

  /** After any history, a call with the cache types the atoms and answers (apart from the hit flag) exactly like a call
      that recomputes, if and only if it misses, or the additive is admitted and the profile names its policies. */
  lemma {:induction false} CacheTransparentIff(svc: Service, parse: string -> Structure, events: seq<Event>, r: Request,
                                               before: seq<Typing>)
    requires svc.WellFormed() && Consistent(parse, r) && |before| == |r.structure.atoms|
    requires forall i :: 0 <= i < |events| && events[i].Call? ==> Consistent(parse, events[i].r)
    ensures var store := StoreOf(svc, events);
      var cached, recomputed := Cached(svc, store, r, before), Recomputed(svc, r, before);
      (SameButHit(cached.bundle) == recomputed.bundle && cached.typings == recomputed.typings) <==>
        (HitFor(svc, store, r).None? || (r.admitted && PoliciesMatch(svc.assign(r.structure, r.profileId))))
  {
    hide Typed, Serialize, HitFor, StoreOf, SitesOf, Honest;
    var store := StoreOf(svc, events);
    AlwaysHonest(svc, parse, events);
    if HitFor(svc, store, r).Some? {
      HitIsHonest(svc, parse, store, r);
      var a := svc.assign(r.structure, r.profileId).a;
      SerializedSites(r.structure, a, r.profileId, svc.version(r.profileId));
      SerializedFields(r.structure, a, r.profileId, svc.version(r.profileId));
    } else {
      FreshIsNotHit(svc, r, before);
    }
  }

  /** What a call answers, after any history: atom by atom and field by field what the service assigns to the structure;
      a refused or failing call types the atoms that the service had typed, and no others. */
  lemma AnswerIs(svc: Service, parse: string -> Structure, events: seq<Event>, r: Request, before: seq<Typing>)
    requires svc.WellFormed() && Consistent(parse, r) && |before| == |r.structure.atoms|
    requires forall i :: 0 <= i < |events| && events[i].Call? ==> Consistent(parse, events[i].r)
    ensures var store := StoreOf(svc, events);
      var answer, o, hit := Cached(svc, store, r, before), svc.assign(r.structure, r.profileId),
                            HitFor(svc, store, r).Some?;
      && |answer.typings| == |before|
      && (answer.bundle.Success? <==> hit || (r.admitted && o.Assigned?))
      && (answer.bundle.Success? ==>
            var b := answer.bundle.value;
            && o.Assigned? && |o.a.sites| == |before|
            && (forall k :: 0 <= k < |before| ==>
                  answer.typings[k] == Typing(o.a.sites[k].ffType, o.a.sites[k].charge, true))
            && b.profileId == r.profileId && b.profileVersion == svc.version(r.profileId) && b.cacheHit == hit
            && b.totalCharge == o.a.totalCharge && b.atomCoeffs == o.a.atomCoeffs && b.bondCoeffs == o.a.bondCoeffs
            && b.angleCoeffs == o.a.angleCoeffs
            && b.dihedralPolicy == (if hit && o.a.dihedralPolicy == "" then "strict" else o.a.dihedralPolicy)
            && b.philosophy == (if hit && o.a.philosophy == "" then "full" else o.a.philosophy))
      && (answer.bundle.Failure? ==>
            var failed := if r.admitted then o else svc.refused;
            && failed.Failed? && answer.bundle.error == failed.reason
            && forall k :: 0 <= k < |before| ==>
                 answer.typings[k] == if k < |failed.typed|
                   then Typing(failed.typed[k].ffType, failed.typed[k].charge, true) else before[k])
  {
    hide Serialize, HitFor, StoreOf, SitesOf, Honest;
    var store := StoreOf(svc, events);
    AlwaysHonest(svc, parse, events);
    if HitFor(svc, store, r).Some? {
      HitIsHonest(svc, parse, store, r);
      var a := svc.assign(r.structure, r.profileId).a;
      SerializedSites(r.structure, a, r.profileId, svc.version(r.profileId));
      SerializedFields(r.structure, a, r.profileId, svc.version(r.profileId));
    }
  }

  // The defaults that a stored empty string reads back as are what the profile says.
  predicate PoliciesMatch(o: Outcome) {
    o.Assigned? && o.a.dihedralPolicy != "" && o.a.philosophy != ""
  }

  lemma SerializedFields(s: Structure, a: Assignment, profileId: string, version: string)
    requires |a.sites| == |s.atoms|
    ensures CachedBundle(Serialize(s, a, profileId, version), profileId, version)
      == BundleOf(a, profileId, version).(cacheHit := true, dihedralPolicy := OrDefault(a.dihedralPolicy, "strict"),
                                          philosophy := OrDefault(a.philosophy, "full"))
  {
  }

  lemma FreshIsNotHit(svc: Service, r: Request, before: seq<Typing>)
    requires svc.WellFormed() && |before| == |r.structure.atoms|
    ensures SameButHit(Recomputed(svc, r, before).bundle) == Recomputed(svc, r, before).bundle
  {
  }

  /** What was stored is found again: a repeated admitted call hits, unless the entry was lost in between. */
  lemma {:induction false} SecondCallHits(svc: Service, store: Store, r: Request)
    requires svc.WellFormed() && r.fileHash.Some? && svc.Compute(r.structure, r.profileId, r.admitted).Assigned?
    ensures HitFor(svc, StoreAfter(svc, store, r, false), r).Some?
  {
    hide Serialize, Usable;
    var o := svc.Compute(r.structure, r.profileId, r.admitted);
    if r.admitted {
      SerializedSites(r.structure, o.a, r.profileId, svc.version(r.profileId));
    }
  }

  /** Blocking an additive after one admitted call does not stop it from being served: the cached call succeeds where
      recomputing is refused. */
  lemma BlockedIsStillServed(svc: Service, r: Request, before: seq<Typing>)
    requires svc.WellFormed() && |before| == |r.structure.atoms|
    requires r.fileHash.Some? && r.admitted && svc.assign(r.structure, r.profileId).Assigned?
    ensures var store, blocked := StoreOf(svc, [Call(r, false)]), r.(admitted := false);
      && Cached(svc, store, blocked, before).bundle.Success?
      && Recomputed(svc, blocked, before).bundle.Failure?
  {
    hide Serialize, Usable, Typed;
    var events := [Call(r, false)];
    assert events[..0] == [];
    assert StoreOf(svc, events) == StoreAfter(svc, map[], r, false);
    SecondCallHits(svc, map[], r);
  }
}
