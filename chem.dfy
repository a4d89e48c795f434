/**
 * The molecule document of MolWeaver as a value: atoms keyed by id, an explicit
 * display order, bonds keyed by id, the incrementally kept bond count of every
 * atom ("valence") and the two id allocators.  Every mutation primitive of the
 * Rust `Molecule` is given here as a function from the old state to the new one;
 * the class in molecule.dfy is proved to compute exactly these functions, and the
 * lemmas below say what the functions promise.
 */
module Chem {
  import opened Wrappers
  import opened Text

  type AtomId = nat
  type BondId = nat

  /** One `f32` coordinate, kept as its bit pattern: the core only copies positions. */
  type Coord = bv32

  datatype Position = Position(x: Coord, y: Coord, z: Coord)

  datatype Atom = Atom(id: AtomId, element: string, position: Position)

  datatype Bond = Bond(id: BondId, a: AtomId, b: AtomId)

  /** What `remove_atom` hands back so that the deletion can be undone. */
  datatype RemovedAtom = RemovedAtom(atom: Atom, orderIndex: nat, bonds: seq<Bond>)

  /** The messages of the core's `Err(String)` results. */
  datatype EditError =
    | AtomDoesNotExist                            // "atom does not exist"
    | BondAlreadyExists                           // "bond already exists"
    | ValenceExceeded(element: string, max: nat)  // "valence exceeded for {element} (max {max})"
    | AtomNotFound                                // "atom not found"
    | BondNotFound                                // "bond not found"
    | MissingUndoData                             // "missing undo data"
    | CommandMissingData                          // "command missing data"

  // ---------------------------------------------------------------------------
  // Valence table

  /** The most bonds an atom of `element` may take; the label is trimmed and upper-cased first. */
  function MaxValence(element: string): (v: nat)
    ensures 1 <= v <= 6
  {
    ValenceOfLabel(Normalized(element))
  }

  /** The table itself, on an already normalised label; unknown labels get 4. */
  function ValenceOfLabel(e: string): (k: nat)
    ensures 1 <= k <= 6
  {
    if e == "H" then 1
    else if e == "C" then 4
    else if e == "N" then 3
    else if e == "O" then 2
    else if e == "F" || e == "CL" || e == "BR" || e == "I" then 1
    else if e == "P" then 5
    else if e == "S" then 6
    else 4
  }

  /** The valence lookup ignores surrounding whitespace and letter case. */
  lemma MaxValenceIgnoresCaseAndPadding(element: string)
    ensures MaxValence(ToAsciiUpper(element)) == MaxValence(element)
    ensures MaxValence(Trim(element)) == MaxValence(element)
  {
    NormalizedIgnoresCase(element);
    NormalizedIgnoresPadding(element);
  }

  // ---------------------------------------------------------------------------
  // The state

  datatype MolState = MolState(
    atoms: map<AtomId, Atom>,
    order: seq<AtomId>,
    bonds: map<BondId, Bond>,
    counts: map<AtomId, nat>,
    nextAtomId: nat,
    nextBondId: nat)

  /** `Molecule::new`: nothing in it, both allocators at 1. */
  function EmptyState(): MolState {
    MolState(map[], [], map[], map[], 1, 1)
  }

  /** The bond joins `x` and `y`, in either orientation. */
  predicate Links(b: Bond, x: AtomId, y: AtomId) {
    (b.a == x && b.b == y) || (b.a == y && b.b == x)
  }

  /** Some bond joins `x` and `y`: what `bond_between(x, y).is_some()` answers. */
  predicate Bonded(bonds: map<BondId, Bond>, x: AtomId, y: AtomId) {
    exists k :: k in bonds && Links(bonds[k], x, y)
  }

  predicate Touches(b: Bond, x: AtomId) {
    b.a == x || b.b == x
  }

  /** How many of the bond's two ends are `x` (2 for a bond from `x` to itself). */
  function Ends(b: Bond, x: AtomId): nat {
    (if b.a == x then 1 else 0) + (if b.b == x then 1 else 0)
  }

  function EndsA(bonds: map<BondId, Bond>, x: AtomId): set<BondId> {
    set k | k in bonds && bonds[k].a == x
  }

  function EndsB(bonds: map<BondId, Bond>, x: AtomId): set<BondId> {
    set k | k in bonds && bonds[k].b == x
  }

  /** The number of bond ends at `x`: what the valence count of `x` is meant to hold. */
  function Degree(bonds: map<BondId, Bond>, x: AtomId): nat {
    |EndsA(bonds, x)| + |EndsB(bonds, x)|
  }

  /** The bonds touching `x`. */
  function Incident(bonds: map<BondId, Bond>, x: AtomId): map<BondId, Bond> {
    map k | k in bonds && Touches(bonds[k], x) :: bonds[k]
  }

  predicate IsSubmap(small: map<BondId, Bond>, big: map<BondId, Bond>) {
    forall k :: k in small ==> k in big && big[k] == small[k]
  }

  /** `usize::saturating_sub`. */
  function SatSub(c: nat, n: nat): nat {
    if c >= n then c - n else 0
  }

  /** Each count lowered once per end of a removed bond, saturating at 0. */
  function Drained(counts: map<AtomId, nat>, removed: map<BondId, Bond>): map<AtomId, nat> {
    map x | x in counts :: SatSub(counts[x], Degree(removed, x))
  }

  /** The count `ensure_valence_available` reads: a missing entry reads as 0. */
  function CountOf(s: MolState, x: AtomId): nat {
    if x in s.counts then s.counts[x] else 0
  }

  /** One more bond at `x` stays within its element's valence. */
  predicate HasRoom(s: MolState, x: AtomId)
    requires x in s.atoms
  {
    CountOf(s, x) + 1 <= MaxValence(s.atoms[x].element)
  }

  predicate Distinct(order: seq<AtomId>) {
    forall i, j :: 0 <= i < j < |order| ==> order[i] != order[j]
  }

  /** `listing` names every bond of `m` exactly once, as its value. */
  predicate Enumerates(listing: seq<Bond>, m: map<BondId, Bond>) {
    && (forall i :: 0 <= i < |listing| ==> listing[i].id in m && m[listing[i].id] == listing[i])
    && (forall i, j :: 0 <= i < j < |listing| ==> listing[i].id != listing[j].id)
    && (forall k :: k in m ==> m[k] in listing)
  }

  // ---------------------------------------------------------------------------
  // Invariants

  /** Every map key is the id stored in its value (every insertion writes `id => {id, ..}`). */
  predicate WellKeyed(s: MolState) {
    && (forall k :: k in s.atoms ==> s.atoms[k].id == k)
    && (forall k :: k in s.bonds ==> s.bonds[k].id == k)
  }

  /** Allocators lie above every id in use. */
  predicate IdsBelow(s: MolState) {
    && (forall k :: k in s.atoms ==> k < s.nextAtomId)
    && (forall k :: k in s.bonds ==> k < s.nextBondId)
  }

  /** Both ends of every bond are atoms of the molecule. */
  predicate EndpointsExist(s: MolState) {
    forall k :: k in s.bonds ==> s.bonds[k].a in s.atoms && s.bonds[k].b in s.atoms
  }

  /** At most one bond per unordered pair of atoms. */
  predicate UniquePairs(bonds: map<BondId, Bond>) {
    forall k, k' :: k in bonds && k' in bonds && k != k' ==> !Links(bonds[k'], bonds[k].a, bonds[k].b)
  }

  /** The counts are kept for exactly the atoms and equal each atom's bond ends. */
  predicate CountsExact(s: MolState) {
    && s.counts.Keys == s.atoms.Keys
    && (forall x :: x in s.counts ==> s.counts[x] == Degree(s.bonds, x))
  }

  /** The order is a duplicate-free listing of exactly the atom keys. */
  predicate OrderPermutes(s: MolState) {
    && Distinct(s.order)
    && (forall i :: 0 <= i < |s.order| ==> s.order[i] in s.atoms)
    && (forall x :: x in s.atoms ==> x in s.order)
  }

  /** The structural invariants every successful public operation is meant to keep. */
  predicate Valid(s: MolState) {
    WellKeyed(s) && IdsBelow(s) && EndpointsExist(s) && UniquePairs(s.bonds) && CountsExact(s) && OrderPermutes(s)
  }

  /** No atom carries more bonds than its element allows. */
  predicate WithinValence(s: MolState) {
    forall x :: x in s.atoms ==> CountOf(s, x) <= MaxValence(s.atoms[x].element)
  }

  // ---------------------------------------------------------------------------
  // Sequence helpers for the order

  function InsertAt(order: seq<AtomId>, i: nat, x: AtomId): seq<AtomId>
    requires i <= |order|
  {
    order[..i] + [x] + order[i..]
  }

  function RemoveAt(order: seq<AtomId>, i: nat): seq<AtomId>
    requires i < |order|
  {
    order[..i] + order[i + 1..]
  }

  /** `atoms_in_order`: the atoms named by `ids`, in that order, skipping ids without an atom. */
  function AtomsListed(ids: seq<AtomId>, atoms: map<AtomId, Atom>): seq<Atom> {
    if ids == [] then []
    else
      var last := ids[|ids| - 1];
      AtomsListed(ids[..|ids| - 1], atoms) + (if last in atoms then [atoms[last]] else [])
  }

  // ---------------------------------------------------------------------------
  // The mutation primitives

  /** `insert_atom`: the next id, appended to the order with count 0. */
  function InsertAtomSpec(s: MolState, element: string, position: Position): (MolState, AtomId) {
    var id := s.nextAtomId;
    (s.(atoms := s.atoms[id := Atom(id, element, position)],
        order := s.order + [id],
        counts := s.counts[id := 0],
        nextAtomId := id + 1),
     id)
  }

  /** Where `insert_atom_with_id` places the id: at `min(index, len)`, or at the tail with no index. */
  function PlaceInOrder(order: seq<AtomId>, id: AtomId, orderIndex: Option<nat>): seq<AtomId> {
    if orderIndex.Some? then InsertAt(order, Min(orderIndex.value, |order|), id) else order + [id]
  }

  /** `insert_atom_with_id`: nothing guards an id already present. */
  function InsertAtomWithIdSpec(s: MolState, id: AtomId, element: string, position: Position,
                                orderIndex: Option<nat>): MolState
  {
    s.(nextAtomId := Max(s.nextAtomId, id + 1),
       atoms := s.atoms[id := Atom(id, element, position)],
       order := PlaceInOrder(s.order, id, orderIndex),
       counts := if id in s.counts then s.counts else s.counts[id := 0])
  }

  /** The state `remove_atom` leaves; an unknown id changes nothing. */
  function RemoveAtomState(s: MolState, id: AtomId): MolState {
    if id !in s.atoms then s
    else
      var i := FirstIndex(s.order, id);
      var incident := Incident(s.bonds, id);
      s.(atoms := s.atoms - {id},
         order := if i < |s.order| then RemoveAt(s.order, i) else s.order,
         bonds := s.bonds - incident.Keys,
         counts := Drained(s.counts, incident) - {id})
  }

  /** `set_atom_position`: `None` for an unknown id. */
  function SetAtomPositionSpec(s: MolState, id: AtomId, position: Position): Option<MolState> {
    if id !in s.atoms then None
    else Some(s.(atoms := s.atoms[id := s.atoms[id].(position := position)]))
  }

  /** `increment_valence`: a missing entry starts from 0. */
  function Bump(counts: map<AtomId, nat>, x: AtomId): map<AtomId, nat> {
    counts[x := (if x in counts then counts[x] else 0) + 1]
  }

  /** `decrement_valence`: saturating, and a missing entry stays missing. */
  function Drop(counts: map<AtomId, nat>, x: AtomId): map<AtomId, nat> {
    if x in counts then counts[x := SatSub(counts[x], 1)] else counts
  }

  /** The insertion shared by `add_bond` and `insert_bond_with_id` once every check passed. */
  function Link(s: MolState, id: BondId, a: AtomId, b: AtomId): MolState {
    s.(bonds := s.bonds[id := Bond(id, a, b)], counts := Bump(Bump(s.counts, a), b))
  }

  /** The checks of `add_bond`, in its order: both atoms, no bond yet, room at `a`, room at `b`. */
  function BondCheck(s: MolState, a: AtomId, b: AtomId): Option<EditError> {
    if a !in s.atoms || b !in s.atoms then Some(AtomDoesNotExist)
    else if Bonded(s.bonds, a, b) then Some(BondAlreadyExists)
    else if !HasRoom(s, a) then Some(ValenceExceeded(s.atoms[a].element, MaxValence(s.atoms[a].element)))
    else if !HasRoom(s, b) then Some(ValenceExceeded(s.atoms[b].element, MaxValence(s.atoms[b].element)))
    else None
  }

  /** `add_bond`. */
  function AddBondSpec(s: MolState, a: AtomId, b: AtomId): (MolState, Result<BondId, EditError>) {
    match BondCheck(s, a, b)
    case Some(e) => (s, Err(e))
    case None =>
      var id := s.nextBondId;
      (Link(s, id, a, b).(nextBondId := id + 1), Ok(id))
  }

  /** `insert_bond_with_id`: the allocator moves past `id` before the duplicate and valence checks. */
  function InsertBondWithIdSpec(s: MolState, id: BondId, a: AtomId, b: AtomId): (MolState, Result<BondId, EditError>) {
    if a !in s.atoms || b !in s.atoms then (s, Err(AtomDoesNotExist))
    else
      var s1 := s.(nextBondId := Max(s.nextBondId, id + 1));
      match BondCheck(s1, a, b)
      case Some(e) => (s1, Err(e))
      case None => (Link(s1, id, a, b), Ok(id))
  }

  /** `remove_bond`. */
  function RemoveBondSpec(s: MolState, id: BondId): (MolState, Option<Bond>) {
    if id !in s.bonds then (s, None)
    else
      var bond := s.bonds[id];
      (s.(bonds := s.bonds - {id}, counts := Drop(Drop(s.counts, bond.a), bond.b)), Some(bond))
  }
}
