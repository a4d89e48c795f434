/**
 * What the commands promise: which applications succeed, that a failed one
 * leaves the document alone, that a successful one keeps the invariants, that
 * undo after apply gives the document back, that redo repeats the edit, and how
 * moves of one atom coalesce.
 */
module CommandProps {
  import opened Wrappers
  import opened Text
  import opened Chem
  import opened ChemProps
  import opened Commands

  // ---------------------------------------------------------------------------
  // Putting the bonds of a deleted atom back

  /** Taking out some bonds, `b` among them, takes away at least the ends of `b`. */
  lemma DegreeWithoutPart(big: map<BondId, Bond>, pending: map<BondId, Bond>, b: Bond, x: AtomId)
    requires IsSubmap(pending, big) && b.id in pending && pending[b.id] == b
    ensures Degree(big - pending.Keys, x) + Ends(b, x) <= Degree(big, x)
  {
    DegreeSplit(big, pending, x);
    var one := map[b.id := b];
    DegreeSplit(pending, one, x);
    DegreeUntouched(map[], x);
    DegreeInsert(map[], b.id, b, x);
    assert map[][b.id := b] == one;
  }

  /**
   * While some bonds of a valid target are still missing, every atom still has
   * room for the ends of a missing bond.
   */
  lemma RoomForMissingBond(u: MolState, pending: map<BondId, Bond>, target: MolState, b: Bond, x: AtomId)
    requires CountsExact(u) && CountsExact(target) && WithinValence(target) && u.atoms == target.atoms
    requires IsSubmap(pending, target.bonds) && u.bonds == target.bonds - pending.Keys
    requires b.id in pending && pending[b.id] == b && x in target.atoms
    ensures CountOf(u, x) + Ends(b, x) <= MaxValence(u.atoms[x].element)
  {
    DegreeWithoutPart(target.bonds, pending, b, x);
    assert CountOf(u, x) == Degree(u.bonds, x);
    assert CountOf(target, x) == Degree(target.bonds, x);
    assert CountOf(target, x) <= MaxValence(target.atoms[x].element);
  }

  /** With at most one bond per pair, no bond left in place joins the ends of a missing one. */
  lemma MissingBondNotBonded(bonds: map<BondId, Bond>, pending: map<BondId, Bond>, b: Bond)
    requires UniquePairs(bonds) && IsSubmap(pending, bonds) && b.id in pending && pending[b.id] == b
    ensures !Bonded(bonds - pending.Keys, b.a, b.b)
  {
    var rest := bonds - pending.Keys;
    forall k | k in rest ensures !Links(rest[k], b.a, b.b) {
      assert k != b.id && bonds[b.id] == b;
    }
  }

  /** When every check passes, `insert_bond_with_id` below the allocator is the plain insertion. */
  lemma InsertBondWithIdPasses(u: MolState, id: BondId, a: AtomId, b: AtomId)
    requires a in u.atoms && b in u.atoms && id < u.nextBondId && !Bonded(u.bonds, a, b)
    requires HasRoom(u, a) && HasRoom(u, b)
    ensures InsertBondWithIdSpec(u, id, a, b) == (Link(u, id, a, b), Ok(id))
  {
    assert u.(nextBondId := Max(u.nextBondId, id + 1)) == u;
  }

  /** Every check of `insert_bond_with_id` passes for a missing bond of a valid target. */
  lemma MissingBondFits(u: MolState, pending: map<BondId, Bond>, target: MolState, b: Bond)
    requires Valid(target) && WithinValence(target) && CountsExact(u)
    requires u.atoms == target.atoms && u.nextBondId == target.nextBondId
    requires IsSubmap(pending, target.bonds) && u.bonds == target.bonds - pending.Keys
    requires b.id in pending && pending[b.id] == b
    ensures InsertBondWithIdSpec(u, b.id, b.a, b.b) == (Link(u, b.id, b.a, b.b), Ok(b.id))
  {
    assert b.a in u.atoms && b.b in u.atoms && b.id < u.nextBondId;
    MissingBondNotBonded(target.bonds, pending, b);
    RoomForMissingBond(u, pending, target, b, b.a);
    RoomForMissingBond(u, pending, target, b, b.b);
    InsertBondWithIdPasses(u, b.id, b.a, b.b);
  }

  /** Two states with the same atoms and bonds whose counts are both exact have the same counts. */
  lemma ExactCountsAgree(u: MolState, t: MolState)
    requires CountsExact(u) && CountsExact(t) && u.atoms == t.atoms && u.bonds == t.bonds
    ensures u.counts == t.counts
  {
  }

  /** An empty listing enumerates only the empty map. */
  lemma EnumeratesNothing(pending: map<BondId, Bond>)
    requires Enumerates([], pending)
    ensures pending == map[]
  {
  }

  /** Dropping the first entry of a listing drops its bond from the enumerated map. */
  lemma EnumeratesTail(rest: seq<Bond>, pending: map<BondId, Bond>)
    requires rest != [] && Enumerates(rest, pending)
    requires forall k :: k in pending ==> pending[k].id == k
    ensures Enumerates(rest[1..], pending - {rest[0].id})
  {
    var pending' := pending - {rest[0].id};
    forall k | k in pending' ensures pending'[k] in rest[1..] {
      var i :| 0 <= i < |rest| && rest[i] == pending[k];
      assert i != 0;
      assert rest[1..][i - 1] == pending[k];
    }
  }

  /** Putting one missing bond back leaves the others missing. */
  lemma FillOneMissing(present: map<BondId, Bond>, big: map<BondId, Bond>, pending: map<BondId, Bond>, b: Bond)
    requires IsSubmap(pending, big) && present == big - pending.Keys && b.id in pending && pending[b.id] == b
    ensures present[b.id := Bond(b.id, b.a, b.b)] == big - (pending - {b.id}).Keys
  {
  }

  /** A first insertion that succeeds hands the rest of the listing on. */
  lemma ReinsertUnfold(u: MolState, rest: seq<Bond>, t: MolState)
    requires rest != [] && InsertBondWithIdSpec(u, rest[0].id, rest[0].a, rest[0].b) == (t, Ok(rest[0].id))
    ensures ReinsertBonds(u, rest) == ReinsertBonds(t, rest[1..])
  {
  }

  /** Putting back the first missing bond leaves a state of the same shape with one bond fewer missing. */
  lemma ReinsertStep(u: MolState, rest: seq<Bond>, pending: map<BondId, Bond>, target: MolState)
    requires Valid(target) && WithinValence(target) && CountsExact(u)
    requires u.atoms == target.atoms && u.nextBondId == target.nextBondId
    requires IsSubmap(pending, target.bonds) && Enumerates(rest, pending) && rest != []
    requires u.bonds == target.bonds - pending.Keys
    ensures var b := rest[0];
            var t := Link(u, b.id, b.a, b.b);
            && ReinsertBonds(u, rest) == ReinsertBonds(t, rest[1..])
            && CountsExact(t)
            && t.bonds == target.bonds - (pending - {b.id}).Keys
  {
    var b := rest[0];
    MissingBondFits(u, pending, target, b);
    ReinsertUnfold(u, rest, Link(u, b.id, b.a, b.b));
    LinkCounts(u, b.id, b.a, b.b);
    FillOneMissing(u.bonds, target.bonds, pending, b);
  }

  /** With nothing left to put back, the state is the target. */
  lemma ReinsertDone(u: MolState, pending: map<BondId, Bond>, target: MolState)
    requires CountsExact(u) && CountsExact(target) && Enumerates([], pending)
    requires u.atoms == target.atoms && u.order == target.order
    requires u.nextAtomId == target.nextAtomId && u.nextBondId == target.nextBondId
    requires u.bonds == target.bonds - pending.Keys
    ensures ReinsertBonds(u, []) == (target, Ok(()))
  {
    EnumeratesNothing(pending);
    assert u.bonds == target.bonds;
    ExactCountsAgree(u, target);
  }

  /**
   * Putting back, in any order, the bonds a valid target is missing restores the
   * target exactly, each insertion passing every check.
   */
  lemma {:induction false} ReinsertRestores(u: MolState, rest: seq<Bond>, pending: map<BondId, Bond>, target: MolState)
    requires Valid(target) && WithinValence(target) && CountsExact(u)
    requires u.atoms == target.atoms && u.order == target.order
    requires u.nextAtomId == target.nextAtomId && u.nextBondId == target.nextBondId
    requires IsSubmap(pending, target.bonds) && Enumerates(rest, pending)
    requires u.bonds == target.bonds - pending.Keys
    ensures ReinsertBonds(u, rest) == (target, Ok(()))
    decreases |rest|
  {
    if rest == [] {
      ReinsertDone(u, pending, target);
    } else {
      var b := rest[0];
      ReinsertStep(u, rest, pending, target);
      assert forall k :: k in pending ==> pending[k].id == k;
      EnumeratesTail(rest, pending);
      ReinsertRestores(Link(u, b.id, b.a, b.b), rest[1..], pending - {b.id}, target);
    }
  }

  // ---------------------------------------------------------------------------
  // Undo after apply

  /** Putting an element back where it was taken out restores the sequence. */
  lemma InsertAtRemoveAt(order: seq<AtomId>, i: nat)
    requires i < |order|
    ensures i <= |RemoveAt(order, i)| && InsertAt(RemoveAt(order, i), i, order[i]) == order
  {
    assert order[..i] + [order[i]] + order[i + 1..] == order;
  }

  /** A fresh atom with count 0 and no bond touching it keeps the counts exact. */
  lemma FreshZeroCount(t: MolState, atom: Atom)
    requires CountsExact(t) && atom.id !in t.atoms
    requires forall k :: k in t.bonds ==> !Touches(t.bonds[k], atom.id)
    ensures CountsExact(t.(atoms := t.atoms[atom.id := atom], counts := t.counts[atom.id := 0]))
  {
    DegreeUntouched(t.bonds, atom.id);
  }

  /** The state an undone deletion reaches once the atom is back and before any bond is. */
  function AtomRestored(s: MolState, id: AtomId): MolState
    requires id in s.atoms
  {
    var atom := s.atoms[id];
    InsertAtomWithIdSpec(RemoveAtomState(s, id), atom.id, atom.element, atom.position, Some(FirstIndex(s.order, id)))
  }

  /** The re-inserted atom is back in the map and at its old place in the order. */
  lemma RestoreDeletedShape(s: MolState, id: AtomId)
    requires WellKeyed(s) && IdsBelow(s) && id in s.atoms && id in s.order
    ensures var t1 := AtomRestored(s, id);
            && t1.atoms == s.atoms && t1.order == s.order
            && t1.nextAtomId == s.nextAtomId && t1.nextBondId == s.nextBondId
            && t1.bonds == s.bonds - Incident(s.bonds, id).Keys
  {
    var i := FirstIndex(s.order, id);
    var atom := s.atoms[id];
    var t := RemoveAtomState(s, id);
    assert atom.id == id && id < s.nextAtomId;
    assert i < |s.order|;
    assert t.atoms == s.atoms - {id} && t.order == RemoveAt(s.order, i);
    assert t.nextAtomId == s.nextAtomId && t.nextBondId == s.nextBondId;
    InsertAtRemoveAt(s.order, i);
    MapReinsert(s.atoms, id);
  }

  lemma MapReinsert(atoms: map<AtomId, Atom>, id: AtomId)
    requires id in atoms
    ensures (atoms - {id})[id := atoms[id]] == atoms
  {
  }

  /** The re-inserted atom has count 0 and no bond, so the counts are exact again. */
  lemma RestoreDeletedCounts(s: MolState, id: AtomId)
    requires WellKeyed(s) && CountsExact(s) && UniquePairs(s.bonds) && id in s.atoms
    ensures CountsExact(AtomRestored(s, id))
  {
    var t := RemoveAtomState(s, id);
    var atom := s.atoms[id];
    RemoveAtomShape(s, id);
    RemoveAtomCounts(s, id);
    forall k | k in t.bonds ensures !Touches(t.bonds[k], id) {
    }
    FreshZeroCount(t, atom);
    var t1 := AtomRestored(s, id);
    assert t1.atoms == t.atoms[id := atom] && t1.counts == t.counts[id := 0] && t1.bonds == t.bonds;
  }

  /** Undoing a performed deletion gives back exactly the molecule it started from. */
  lemma DeleteRoundTrip(s: MolState, id: AtomId, removed: Option<RemovedAtom>, listing: seq<Bond>)
    requires Valid(s) && WithinValence(s) && id in s.atoms
    requires Enumerates(listing, Incident(s.bonds, id))
    ensures var (t, c', r) := ApplySpec(s, DeleteAtom(id, removed), listing);
            r.Ok? && UndoSpec(t, c') == (s, Ok(()))
  {
    var t := RemoveAtomState(s, id);
    var c' := DeleteAtom(id, Some(RemovedAtom(s.atoms[id], FirstIndex(s.order, id), listing)));
    assert ApplySpec(s, DeleteAtom(id, removed), listing) == (t, c', Ok(()));
    var t1 := AtomRestored(s, id);
    assert UndoSpec(t, c') == ReinsertBonds(t1, listing);
    RestoreDeletedShape(s, id);
    RestoreDeletedCounts(s, id);
    var inc := Incident(s.bonds, id);
    assert IsSubmap(inc, s.bonds);
    ReinsertRestores(t1, listing, inc, s);
  }

  /** The first occurrence of a freshly inserted id is where it was inserted. */
  lemma InsertedFreshIndex(order: seq<AtomId>, id: AtomId, i: nat)
    requires id !in order && i <= |order|
    ensures FirstIndex(InsertAt(order, i, id), id) == i
    ensures RemoveAt(InsertAt(order, i, id), i) == order
  {
    var r := InsertAt(order, i, id);
    assert r[i] == id;
    assert forall j :: 0 <= j < i ==> r[j] == order[j];
    assert r[..i] == order[..i] && r[i + 1..] == order[i..];
    assert order[..i] + order[i..] == order;
  }

  /** The same for the placement `insert_atom_with_id` and `insert_atom` perform. */
  lemma PlacedFreshIndex(order: seq<AtomId>, id: AtomId, orderIndex: Option<nat>)
    requires id !in order
    ensures var i := if orderIndex.Some? then Min(orderIndex.value, |order|) else |order|;
            var r := PlaceInOrder(order, id, orderIndex);
            FirstIndex(r, id) == i && i < |r| && RemoveAt(r, i) == order
  {
    var i := if orderIndex.Some? then Min(orderIndex.value, |order|) else |order|;
    assert PlaceInOrder(order, id, orderIndex) == InsertAt(order, i, id);
    InsertedFreshIndex(order, id, i);
  }

  /** Removing an atom that was just added, with no bonds, gives back the document before it. */
  lemma RemoveFreshAtom(s: MolState, id: AtomId, atom: Atom, orderIndex: Option<nat>, next: nat)
    requires id !in s.atoms && id !in s.order && id !in s.counts
    requires forall k :: k in s.bonds ==> !Touches(s.bonds[k], id)
    ensures var t := s.(atoms := s.atoms[id := atom], order := PlaceInOrder(s.order, id, orderIndex),
                        counts := s.counts[id := 0], nextAtomId := next);
            RemoveAtomState(t, id) == s.(nextAtomId := next)
  {
    var t := s.(atoms := s.atoms[id := atom], order := PlaceInOrder(s.order, id, orderIndex),
                counts := s.counts[id := 0], nextAtomId := next);
    PlacedFreshIndex(s.order, id, orderIndex);
    NothingIncident(s.bonds, id, s.counts[id := 0]);
    FreshCountRemoved(s.counts, id);
    FreshRemoved(s.atoms, id, atom);
    var i := FirstIndex(t.order, id);
    assert RemoveAtomState(t, id) == t.(atoms := s.atoms, order := RemoveAt(t.order, i), bonds := s.bonds, counts := s.counts);
  }

  /** With no bond at `id`, removing its bonds removes nothing and drains nothing. */
  lemma NothingIncident(bonds: map<BondId, Bond>, id: AtomId, counts: map<AtomId, nat>)
    requires forall k :: k in bonds ==> !Touches(bonds[k], id)
    ensures Incident(bonds, id) == map[] && bonds - Incident(bonds, id).Keys == bonds
    ensures Drained(counts, Incident(bonds, id)) == counts
  {
    var inc := Incident(bonds, id);
    assert inc == map[];
    forall x | x in counts ensures Drained(counts, inc)[x] == counts[x] {
      DegreeUntouched(inc, x);
    }
  }

  lemma FreshCountRemoved(counts: map<AtomId, nat>, id: AtomId)
    requires id !in counts
    ensures counts[id := 0] - {id} == counts
  {
  }

  /** Undoing a performed insertion removes the atom again; only the allocator stays advanced. */
  lemma InsertRoundTrip(s: MolState, element: string, position: Position, atomId: Option<AtomId>,
                        orderIndex: Option<nat>, listing: seq<Bond>)
    requires Valid(s) && (atomId.Some? ==> atomId.value !in s.atoms)
    ensures var (t, c', r) := ApplySpec(s, InsertAtom(element, position, atomId, orderIndex), listing);
            r.Ok? && c'.atomId.Some? && UndoSpec(t, c') == (s.(nextAtomId := t.nextAtomId), Ok(()))
  {
    var id := if atomId.Some? then atomId.value else s.nextAtomId;
    assert id !in s.atoms;
    assert id !in s.order && id !in s.counts;
    forall k | k in s.bonds ensures !Touches(s.bonds[k], id) {
    }
    var index := if orderIndex.Some? then orderIndex.value else |s.order|;
    var place := if atomId.Some? then Some(index) else None;
    var (t, c', r) := ApplySpec(s, InsertAtom(element, position, atomId, orderIndex), listing);
    InsertApplied(s, element, position, atomId, orderIndex, listing);
    RemoveFreshAtom(s, id, Atom(id, element, position), place, t.nextAtomId);
  }

  /** A performed insertion: the atom under its id, with count 0, placed in the order, and the recorded id and index. */
  lemma InsertApplied(s: MolState, element: string, position: Position, atomId: Option<AtomId>,
                      orderIndex: Option<nat>, listing: seq<Bond>)
    requires atomId.Some? ==> atomId.value !in s.counts
    ensures var (t, c', r) := ApplySpec(s, InsertAtom(element, position, atomId, orderIndex), listing);
            var id := if atomId.Some? then atomId.value else s.nextAtomId;
            var index := if orderIndex.Some? then orderIndex.value else |s.order|;
            && r == Ok(()) && c' == InsertAtom(element, position, Some(id), Some(index))
            && t == s.(atoms := s.atoms[id := Atom(id, element, position)],
                       order := PlaceInOrder(s.order, id, if atomId.Some? then Some(index) else None),
                       counts := s.counts[id := 0],
                       nextAtomId := if atomId.Some? then Max(s.nextAtomId, id + 1) else id + 1)
  {
  }

  /** Bumping two counts and dropping them again restores them. */
  lemma BumpDropCancel(c: map<AtomId, nat>, a: AtomId, b: AtomId)
    requires a in c && b in c
    ensures Drop(Drop(Bump(Bump(c, a), b), a), b) == c
  {
  }

  /** Removing a bond just linked under a fresh id gives back the state before the link. */
  lemma UnlinkFresh(s: MolState, id: BondId, a: AtomId, b: AtomId)
    requires id !in s.bonds && a in s.counts && b in s.counts
    ensures RemoveBondSpec(Link(s, id, a, b), id) == (s, Some(Bond(id, a, b)))
  {
    var t := Link(s, id, a, b);
    BumpDropCancel(s.counts, a, b);
    assert t.bonds - {id} == s.bonds;
  }

  /** Undoing a performed bond addition removes the bond again; only the allocator stays advanced. */
  lemma AddBondRoundTrip(s: MolState, a: AtomId, b: AtomId, bondId: Option<BondId>, listing: seq<Bond>)
    requires Valid(s) && (bondId.Some? ==> bondId.value !in s.bonds)
    ensures var (t, c', r) := ApplySpec(s, AddBond(a, b, bondId), listing);
            r.Ok? ==> c'.bondId.Some? && UndoSpec(t, c') == (s.(nextBondId := t.nextBondId), Ok(()))
  {
    var (t, c', r) := ApplySpec(s, AddBond(a, b, bondId), listing);
    BondApplied(s, a, b, bondId, listing);
    if r.Ok? {
      var id := c'.bondId.value;
      var s1 := s.(nextBondId := t.nextBondId);
      assert id !in s.bonds && a in s.counts && b in s.counts;
      UnlinkFresh(s1, id, a, b);
    }
  }

  /** A performed bond addition is a `Link` of the new bond, with the allocator moved on. */
  lemma BondApplied(s: MolState, a: AtomId, b: AtomId, bondId: Option<BondId>, listing: seq<Bond>)
    ensures var (t, c', r) := ApplySpec(s, AddBond(a, b, bondId), listing);
            r.Ok? ==>
              && c'.bondId.Some? && a in s.atoms && b in s.atoms
              && t == Link(s.(nextBondId := t.nextBondId), c'.bondId.value, a, b)
              && (if bondId.Some? then c'.bondId == bondId else c'.bondId.value == s.nextBondId)
  {
  }

  /** Raising both ends of a bond whose ends were just lowered gives the counts back. */
  lemma DropBumpCancel(c: map<AtomId, nat>, bond: Bond)
    requires bond.a in c && bond.b in c
    requires Ends(bond, bond.a) <= c[bond.a] && Ends(bond, bond.b) <= c[bond.b]
    ensures Bump(Bump(Drop(Drop(c, bond.a), bond.b), bond.a), bond.b) == c
  {
  }

  /** Linking a removed bond again under its own id rebuilds the state it was removed from. */
  lemma UnlinkRelink(s: MolState, id: BondId)
    requires id in s.bonds && s.bonds[id].id == id
    requires var bond := s.bonds[id];
             bond.a in s.counts && bond.b in s.counts
             && Ends(bond, bond.a) <= s.counts[bond.a] && Ends(bond, bond.b) <= s.counts[bond.b]
    ensures var bond := s.bonds[id];
            Link(RemoveBondSpec(s, id).0, id, bond.a, bond.b) == s
  {
    var bond := s.bonds[id];
    DropBumpCancel(s.counts, bond);
    assert (s.bonds - {id})[id := Bond(id, bond.a, bond.b)] == s.bonds;
  }

  /** With at most one bond per pair, no other bond joins the ends of a removed one. */
  lemma RemovedPairFree(bonds: map<BondId, Bond>, id: BondId)
    requires UniquePairs(bonds) && id in bonds
    ensures !Bonded(bonds - {id}, bonds[id].a, bonds[id].b)
  {
    forall k | k in bonds - {id} ensures !Links((bonds - {id})[k], bonds[id].a, bonds[id].b) {
      assert k != id;
    }
  }

  /** Each end of a removed bond has room for it again. */
  lemma RoomAfterRemoval(s: MolState, id: BondId, x: AtomId)
    requires CountsExact(s) && EndpointsExist(s) && WithinValence(s) && id in s.bonds
    requires x == s.bonds[id].a || x == s.bonds[id].b
    ensures x in RemoveBondSpec(s, id).0.atoms && HasRoom(RemoveBondSpec(s, id).0, x)
  {
    RemoveBondCounts(s, id);
    assert x in s.atoms && CountOf(s, x) <= MaxValence(s.atoms[x].element);
  }

  /** Inserting a removed bond again, under its own id, gives back the molecule it came from. */
  lemma RelinkRemoved(s: MolState, id: BondId)
    requires Valid(s) && WithinValence(s) && id in s.bonds
    ensures var bond := s.bonds[id];
            InsertBondWithIdSpec(RemoveBondSpec(s, id).0, bond.id, bond.a, bond.b) == (s, Ok(bond.id))
  {
    var bond := s.bonds[id];
    var t := RemoveBondSpec(s, id).0;
    RoomAfterRemoval(s, id, bond.a);
    RoomAfterRemoval(s, id, bond.b);
    RemovedPairFree(s.bonds, id);
    InsertBondWithIdPasses(t, id, bond.a, bond.b);
    assert s.counts[bond.a] == Degree(s.bonds, bond.a) && s.counts[bond.b] == Degree(s.bonds, bond.b);
    DegreeRemove(s.bonds, id, bond.a);
    DegreeRemove(s.bonds, id, bond.b);
    UnlinkRelink(s, id);
  }

  lemma RemoveBondRoundTrip(s: MolState, id: BondId, removed: Option<Bond>, listing: seq<Bond>)
    requires Valid(s) && WithinValence(s) && id in s.bonds
    ensures var (t, c', r) := ApplySpec(s, RemoveBond(id, removed), listing);
            r.Ok? && UndoSpec(t, c') == (s, Ok(()))
  {
    ApplyRemoveBondIs(s, id, removed, listing);
    RelinkRemoved(s, id);
    UndoRemoveBondIs(RemoveBondSpec(s, id).0, id, s.bonds[id]);
  }

  /**
   * As written, the round trip above needs every count within its maximum.  Once a self-bond
   * has pushed an atom past its maximum, removing an ordinary bond at that atom succeeds, but
   * its `undo` is refused by the valence check of `insert_bond_with_id`: the bond stays
   * removed and the undo reports the atom's element.
   */
  lemma RemoveBondUndoFailsOverValence(s: MolState, id: BondId, removed: Option<Bond>, listing: seq<Bond>)
    requires Valid(s) && id in s.bonds
    requires var bond := s.bonds[id];
             bond.a != bond.b && MaxValence(s.atoms[bond.a].element) < CountOf(s, bond.a)
    ensures var (t, c', r) := ApplySpec(s, RemoveBond(id, removed), listing);
            var e := s.atoms[s.bonds[id].a].element;
            && r.Ok? && id !in t.bonds
            && UndoSpec(t, c') == (t, Err(ValenceExceeded(e, MaxValence(e))))
  {
    var bond := s.bonds[id];
    var t := RemoveBondSpec(s, id).0;
    ApplyRemoveBondIs(s, id, removed, listing);
    UndoRemoveBondIs(t, id, bond);
    RemoveBondOverValence(s, id);
  }

  /** The checks `insert_bond_with_id` makes when re-inserting a removed bond at an over-full atom. */
  lemma RemoveBondOverValence(s: MolState, id: BondId)
    requires Valid(s) && id in s.bonds
    requires var bond := s.bonds[id];
             bond.a != bond.b && MaxValence(s.atoms[bond.a].element) < CountOf(s, bond.a)
    ensures var bond := s.bonds[id];
            var t := RemoveBondSpec(s, id).0;
            var e := s.atoms[bond.a].element;
            && id !in t.bonds
            && InsertBondWithIdSpec(t, bond.id, bond.a, bond.b) == (t, Err(ValenceExceeded(e, MaxValence(e))))
  {
    var bond := s.bonds[id];
    var t := RemoveBondSpec(s, id).0;
    RemoveBondCounts(s, id);
    RemovedPairFree(s.bonds, id);
    assert t.atoms == s.atoms && t.nextBondId == s.nextBondId && bond.id == id;
    assert CountOf(t, bond.a) + 1 == CountOf(s, bond.a);
    assert t.(nextBondId := Max(t.nextBondId, id + 1)) == t;
  }

  /** What `apply` does with a removal of a present bond. */
  lemma ApplyRemoveBondIs(s: MolState, id: BondId, removed: Option<Bond>, listing: seq<Bond>)
    requires id in s.bonds
    ensures ApplySpec(s, RemoveBond(id, removed), listing)
            == (RemoveBondSpec(s, id).0, RemoveBond(id, Some(s.bonds[id])), Ok(()))
  {
  }

  /** What `undo` does with a performed bond removal: re-insert the bond under its id. */
  lemma UndoRemoveBondIs(t: MolState, id: BondId, bond: Bond)
    ensures var (u, r) := InsertBondWithIdSpec(t, bond.id, bond.a, bond.b);
            UndoSpec(t, RemoveBond(id, Some(bond))) == (u, if r.Err? then Err(r.error) else Ok(()))
  {
  }

  /** Undoing a performed move puts the atom at the move's starting position. */
  lemma MoveRoundTrip(s: MolState, id: AtomId, from: Position, to: Position, listing: seq<Bond>)
    requires id in s.atoms
    ensures var (t, c', r) := ApplySpec(s, MoveAtom(id, from, to), listing);
            && r.Ok? && c' == MoveAtom(id, from, to)
            && UndoSpec(t, c') == (s.(atoms := s.atoms[id := s.atoms[id].(position := from)]), Ok(()))
            && (s.atoms[id].position == from ==> UndoSpec(t, c').0 == s)
  {
    var t := s.(atoms := s.atoms[id := s.atoms[id].(position := to)]);
    assert ApplySpec(s, MoveAtom(id, from, to), listing) == (t, MoveAtom(id, from, to), Ok(()));
    var back := s.atoms[id].(position := from);
    assert t.atoms[id].(position := from) == back;
    assert t.atoms[id := back] == s.atoms[id := back];
    assert s.atoms[id].position == from ==> back == s.atoms[id] && s.atoms[id := back] == s.atoms;
  }

  // ---------------------------------------------------------------------------
  // What `apply` decides and records

  /** The supplied ids of a command are not in use yet: the one demand `apply` needs to keep the invariants. */
  predicate Applicable(s: MolState, c: Command) {
    && (c.InsertAtom? && c.atomId.Some? ==> c.atomId.value !in s.atoms)
    && (c.AddBond? && c.bondId.Some? ==> c.bondId.value !in s.bonds)
  }

  lemma BondCheckIgnoresAllocator(s: MolState, n: nat, a: AtomId, b: AtomId)
    ensures BondCheck(s.(nextBondId := n), a, b) == BondCheck(s, a, b)
  {
  }

  /** Exactly when `apply` succeeds, and which error it reports otherwise. */
  lemma ApplyOutcome(s: MolState, c: Command, listing: seq<Bond>)
    ensures var (t, c', r) := ApplySpec(s, c, listing);
            && (c.InsertAtom? ==> r.Ok?)
            && (c.DeleteAtom? ==> (r.Ok? <==> c.deletedId in s.atoms) && (r.Err? ==> r.error == AtomNotFound))
            && (c.AddBond? ==> (r.Ok? <==> BondCheck(s, c.atomA, c.atomB).None?))
            && (c.AddBond? && Bonded(s.bonds, c.atomA, c.atomB) ==> r == Err(BondAlreadyExists))
            && (c.AddBond? && r.Err? ==> BondCheck(s, c.atomA, c.atomB) == Some(r.error)
                                         || Bonded(s.bonds, c.atomA, c.atomB))
            && (c.RemoveBond? ==> (r.Ok? <==> c.removedBondId in s.bonds) && (r.Err? ==> r.error == BondNotFound))
            && (c.MoveAtom? ==> (r.Ok? <==> c.movedId in s.atoms) && (r.Err? ==> r.error == AtomNotFound))
  {
    if c.AddBond? && c.bondId.Some? {
      BondCheckIgnoresAllocator(s, Max(s.nextBondId, c.bondId.value + 1), c.atomA, c.atomB);
    }
  }

  /**
   * A failed `apply` leaves the command as it was and the molecule as it was, except that
   * a bond addition under a given id whose two atoms exist and are not yet bonded has
   * already moved the bond allocator past that id.
   */
  lemma ApplyFailureLeavesState(s: MolState, c: Command, listing: seq<Bond>)
    ensures var (t, c', r) := ApplySpec(s, c, listing);
            r.Err? ==>
              && c' == c
              && t == s.(nextBondId := t.nextBondId)
              && (c.AddBond? && c.bondId.Some? ==> s.nextBondId <= t.nextBondId)
              && ((c.AddBond? && c.bondId.Some? && c.atomA in s.atoms && c.atomB in s.atoms
                   && !Bonded(s.bonds, c.atomA, c.atomB)) ==> t.nextBondId == Max(s.nextBondId, c.bondId.value + 1))
              && (!(c.AddBond? && c.bondId.Some?) ==> t == s)
              && ((c.AddBond? && (c.atomA !in s.atoms || c.atomB !in s.atoms || Bonded(s.bonds, c.atomA, c.atomB)))
                  ==> t == s)
  {
  }

  /** A successful `apply` records in the command what its `undo` needs. */
  lemma ApplyRecordsUndoData(s: MolState, c: Command, listing: seq<Bond>)
    requires Valid(s)
    ensures var (t, c', r) := ApplySpec(s, c, listing);
            r.Ok? ==>
              && (c.InsertAtom? ==>
                    && c'.InsertAtom? && c'.element == c.element && c'.position == c.position
                    && c'.atomId.Some? && c'.atomId.value in t.atoms
                    && t.atoms[c'.atomId.value] == Atom(c'.atomId.value, c.element, c.position)
                    && c'.atomId == (if c.atomId.Some? then c.atomId else Some(s.nextAtomId))
                    && c'.orderIndex == Some(if c.orderIndex.Some? then c.orderIndex.value else |s.order|))
              && (c.DeleteAtom? ==>
                    && c'.DeleteAtom? && c'.deletedId == c.deletedId && c'.removedAtom.Some?
                    && c'.removedAtom.value.atom == s.atoms[c.deletedId]
                    && c'.removedAtom.value.orderIndex < |s.order|
                    && s.order[c'.removedAtom.value.orderIndex] == c.deletedId
                    && Captured(c') == listing
                    && c.deletedId !in t.atoms)
              && (c.AddBond? ==>
                    && c'.AddBond? && c'.atomA == c.atomA && c'.atomB == c.atomB && c'.bondId.Some?
                    && c'.bondId == (if c.bondId.Some? then c.bondId else Some(s.nextBondId))
                    && c'.bondId.value in t.bonds && t.bonds[c'.bondId.value] == Bond(c'.bondId.value, c.atomA, c.atomB))
              && (c.RemoveBond? ==>
                    && c' == c.(removedBond := Some(s.bonds[c.removedBondId]))
                    && c.removedBondId !in t.bonds)
              && (c.MoveAtom? ==> c' == c && t.atoms[c.movedId] == s.atoms[c.movedId].(position := c.to))
  {
    if c.DeleteAtom? && c.deletedId in s.atoms {
      assert c.deletedId in s.order;
    }
  }

  /** What a performed command carries is enough for `undo`: it never reports missing data. */
  lemma AppliedHasUndoData(s: MolState, c: Command, listing: seq<Bond>, u: MolState)
    ensures var (t, c', r) := ApplySpec(s, c, listing);
            r.Ok? ==> UndoSpec(u, c').1 != Err(CommandMissingData) && UndoSpec(u, c').1 != Err(MissingUndoData)
  {
    var (t, c', r) := ApplySpec(s, c, listing);
    if r.Ok? && c'.DeleteAtom? {
      var ra := c'.removedAtom.value;
      ReinsertErrors(InsertAtomWithIdSpec(u, ra.atom.id, ra.atom.element, ra.atom.position, Some(ra.orderIndex)), ra.bonds);
    }
  }

  /** The only errors the re-insertion of bonds reports are those of `insert_bond_with_id`. */
  lemma {:induction false} ReinsertErrors(s: MolState, bonds: seq<Bond>)
    ensures var r := ReinsertBonds(s, bonds).1;
            r.Err? ==> r.error.AtomDoesNotExist? || r.error.BondAlreadyExists? || r.error.ValenceExceeded?
    decreases |bonds|
  {
    if bonds != [] {
      var (t, r) := InsertBondWithIdSpec(s, bonds[0].id, bonds[0].a, bonds[0].b);
      if r.Ok? {
        ReinsertErrors(t, bonds[1..]);
      }
    }
  }

  /** `undo` of a command `apply` never performed reports the missing data and changes nothing. */
  lemma UndoNeedsData(s: MolState, c: Command)
    ensures (c.InsertAtom? && c.atomId.None?) || (c.AddBond? && c.bondId.None?) ==>
              UndoSpec(s, c) == (s, Err(CommandMissingData))
    ensures (c.DeleteAtom? && c.removedAtom.None?) || (c.RemoveBond? && c.removedBond.None?) ==>
              UndoSpec(s, c) == (s, Err(MissingUndoData))
  {
  }

  // ---------------------------------------------------------------------------
  // Invariants, undo and redo over every command

  /** What `apply` is meant to keep: every invariant, and the valence bound unless it bonds an atom to itself. */
  predicate KeepsValid(s: MolState, c: Command, listing: seq<Bond>) {
    var t := ApplySpec(s, c, listing).0;
    && Valid(t)
    && (WithinValence(s) && !(c.AddBond? && c.atomA == c.atomB) ==> WithinValence(t))
  }

  /** `apply` keeps the molecule's invariants; only a bond from an atom to itself can overfill a valence. */
  lemma ApplyKeepsValid(s: MolState, c: Command, listing: seq<Bond>)
    requires Valid(s) && Applicable(s, c)
    ensures KeepsValid(s, c, listing)
  {
    match c
    case InsertAtom(_, _, _, _) => InsertKeepsValid(s, c, listing);
    case DeleteAtom(_, _) => DeleteKeepsValid(s, c, listing);
    case AddBond(_, _, _) => BondKeepsValid(s, c, listing);
    case RemoveBond(_, _) => UnbondKeepsValid(s, c, listing);
    case MoveAtom(_, _, _) => MoveKeepsValid(s, c, listing);
  }

  lemma DeleteKeepsValid(s: MolState, c: Command, listing: seq<Bond>)
    requires Valid(s) && c.DeleteAtom?
    ensures KeepsValid(s, c, listing)
  {
    var t := ApplySpec(s, c, listing).0;
    if c.deletedId in s.atoms {
      assert t == RemoveAtomState(s, c.deletedId);
      RemoveAtomKeepsValid(s, c.deletedId);
    } else {
      assert t == s;
    }
  }

  lemma UnbondKeepsValid(s: MolState, c: Command, listing: seq<Bond>)
    requires Valid(s) && c.RemoveBond?
    ensures KeepsValid(s, c, listing)
  {
    UnbondState(s, c, listing);
    if c.removedBondId in s.bonds {
      RemoveBondKeepsValid(s, c.removedBondId);
    }
  }

  lemma UnbondState(s: MolState, c: Command, listing: seq<Bond>)
    requires c.RemoveBond?
    ensures ApplySpec(s, c, listing).0 == if c.removedBondId in s.bonds then RemoveBondSpec(s, c.removedBondId).0 else s
  {
  }

  lemma MoveKeepsValid(s: MolState, c: Command, listing: seq<Bond>)
    requires Valid(s) && c.MoveAtom?
    ensures KeepsValid(s, c, listing)
  {
    MoveState(s, c, listing);
    SetAtomPositionKeepsValid(s, c.movedId, c.to);
  }

  lemma MoveState(s: MolState, c: Command, listing: seq<Bond>)
    requires c.MoveAtom?
    ensures ApplySpec(s, c, listing).0 == if c.movedId in s.atoms then SetAtomPositionSpec(s, c.movedId, c.to).value else s
  {
  }

  lemma InsertKeepsValid(s: MolState, c: Command, listing: seq<Bond>)
    requires Valid(s) && Applicable(s, c) && c.InsertAtom?
    ensures KeepsValid(s, c, listing)
  {
    var index := if c.orderIndex.Some? then c.orderIndex.value else |s.order|;
    if c.atomId.Some? {
      InsertAtomWithIdKeepsValid(s, c.atomId.value, c.element, c.position, Some(index));
    } else {
      InsertAtomKeepsValid(s, c.element, c.position);
    }
  }

  lemma BondKeepsValid(s: MolState, c: Command, listing: seq<Bond>)
    requires Valid(s) && Applicable(s, c) && c.AddBond?
    ensures KeepsValid(s, c, listing)
  {
    var (a, b) := (c.atomA, c.atomB);
    BondState(s, c, listing);
    if !Bonded(s.bonds, a, b) {
      if c.bondId.Some? {
        InsertBondWithIdKeepsValid(s, c.bondId.value, a, b);
        if InsertBondWithIdSpec(s, c.bondId.value, a, b).1.Err? && a in s.atoms && b in s.atoms {
          RaiseBondAllocator(s, Max(s.nextBondId, c.bondId.value + 1));
        }
      } else {
        AddBondKeepsValid(s, a, b);
      }
    }
  }

  lemma BondState(s: MolState, c: Command, listing: seq<Bond>)
    requires c.AddBond?
    ensures ApplySpec(s, c, listing).0 ==
              if Bonded(s.bonds, c.atomA, c.atomB) then s
              else if c.bondId.Some? then InsertBondWithIdSpec(s, c.bondId.value, c.atomA, c.atomB).0
              else AddBondSpec(s, c.atomA, c.atomB).0
  {
  }

  /** Two states that differ at most in their id allocators hold the same document. */
  predicate SameDocument(s: MolState, t: MolState) {
    s.atoms == t.atoms && s.order == t.order && s.bonds == t.bonds && s.counts == t.counts
  }

  /**
   * `undo` after a successful `apply` gives the document back.  Removals and moves give back the
   * very state; an insertion leaves its allocator advanced.  A move is undone to its recorded source.
   */
  lemma UndoReverts(s: MolState, c: Command, listing: seq<Bond>)
    requires Valid(s) && WithinValence(s) && Applicable(s, c)
    requires c.DeleteAtom? ==> Enumerates(listing, Incident(s.bonds, c.deletedId))
    requires c.MoveAtom? && c.movedId in s.atoms ==> s.atoms[c.movedId].position == c.from
    ensures var (t, c', r) := ApplySpec(s, c, listing);
            r.Ok? ==>
              && UndoSpec(t, c').1 == Ok(())
              && SameDocument(UndoSpec(t, c').0, s)
              && UndoSpec(t, c').0.nextAtomId >= s.nextAtomId
              && UndoSpec(t, c').0.nextBondId >= s.nextBondId
              && (c.DeleteAtom? || c.RemoveBond? || c.MoveAtom? ==> UndoSpec(t, c').0 == s)
  {
    var (t, c', r) := ApplySpec(s, c, listing);
    if r.Ok? {
      match c
      case InsertAtom(element, position, atomId, orderIndex) =>
        InsertRoundTrip(s, element, position, atomId, orderIndex, listing);
        InsertAtomNeverLowers(s, c, listing);
      case DeleteAtom(id, removed) =>
        DeleteRoundTrip(s, id, removed, listing);
      case AddBond(a, b, bondId) =>
        AddBondRoundTrip(s, a, b, bondId, listing);
        AddBondNeverLowers(s, c, listing);
      case RemoveBond(id, removed) =>
        RemoveBondRoundTrip(s, id, removed, listing);
      case MoveAtom(id, from, to) =>
        MoveRoundTrip(s, id, from, to, listing);
    }
  }

  lemma InsertAtomNeverLowers(s: MolState, c: Command, listing: seq<Bond>)
    requires c.InsertAtom?
    ensures ApplySpec(s, c, listing).0.nextAtomId >= s.nextAtomId
  {
  }

  lemma AddBondNeverLowers(s: MolState, c: Command, listing: seq<Bond>)
    requires c.AddBond?
    ensures ApplySpec(s, c, listing).0.nextBondId >= s.nextBondId
  {
  }

  /**
   * Applying the recorded command again after its `undo` (a redo) rebuilds the state the first
   * `apply` made, whatever order the deletion then meets the bonds in, except for an insertion
   * without an id whose index falls inside the order (see `InsertRedoMovesAtom`).
   */
  lemma RedoReproduces(s: MolState, c: Command, listing: seq<Bond>, again: seq<Bond>)
    requires Valid(s) && WithinValence(s) && Applicable(s, c)
    requires c.DeleteAtom? ==> Enumerates(listing, Incident(s.bonds, c.deletedId))
    requires !(c.InsertAtom? && c.atomId.None? && c.orderIndex.Some? && c.orderIndex.value < |s.order|)
    ensures var (t, c', r) := ApplySpec(s, c, listing);
            var u := UndoSpec(t, c').0;
            r.Ok? ==> ApplySpec(u, c', again).0 == t && ApplySpec(u, c', again).2 == Ok(())
  {
    match c
    case InsertAtom(element, position, atomId, orderIndex) =>
      RedoInsert(s, element, position, atomId, orderIndex, listing, again);
    case DeleteAtom(id, removed) =>
      if id in s.atoms {
        RedoDelete(s, id, removed, listing, again);
      }
    case AddBond(a, b, bondId) =>
      RedoAddBond(s, a, b, bondId, listing, again);
    case RemoveBond(id, removed) =>
      if id in s.bonds {
        RedoRemoveBond(s, id, removed, listing, again);
      }
    case MoveAtom(id, from, to) =>
      if id in s.atoms {
        RedoMove(s, id, from, to, listing, again);
      }
  }

  lemma RedoDelete(s: MolState, id: AtomId, removed: Option<RemovedAtom>, listing: seq<Bond>, again: seq<Bond>)
    requires Valid(s) && WithinValence(s) && id in s.atoms
    requires Enumerates(listing, Incident(s.bonds, id))
    ensures var (t, c', r) := ApplySpec(s, DeleteAtom(id, removed), listing);
            var u := UndoSpec(t, c').0;
            ApplySpec(u, c', again).0 == t && ApplySpec(u, c', again).2 == Ok(())
  {
    DeleteRoundTrip(s, id, removed, listing);
  }

  lemma RedoRemoveBond(s: MolState, id: BondId, removed: Option<Bond>, listing: seq<Bond>, again: seq<Bond>)
    requires Valid(s) && WithinValence(s) && id in s.bonds
    ensures var (t, c', r) := ApplySpec(s, RemoveBond(id, removed), listing);
            var u := UndoSpec(t, c').0;
            ApplySpec(u, c', again).0 == t && ApplySpec(u, c', again).2 == Ok(())
  {
    RemoveBondRoundTrip(s, id, removed, listing);
    ApplyRemoveBondIs(s, id, removed, listing);
    ApplyRemoveBondIs(s, id, Some(s.bonds[id]), again);
  }

  lemma RedoMove(s: MolState, id: AtomId, from: Position, to: Position, listing: seq<Bond>, again: seq<Bond>)
    requires id in s.atoms
    ensures var (t, c', r) := ApplySpec(s, MoveAtom(id, from, to), listing);
            var u := UndoSpec(t, c').0;
            ApplySpec(u, c', again).0 == t && ApplySpec(u, c', again).2 == Ok(())
  {
    MoveRoundTrip(s, id, from, to, listing);
    var atom := s.atoms[id];
    assert s.atoms[id := atom.(position := from)][id := atom.(position := to)] == s.atoms[id := atom.(position := to)];
  }

  lemma RedoInsert(s: MolState, element: string, position: Position, atomId: Option<AtomId>,
                   orderIndex: Option<nat>, listing: seq<Bond>, again: seq<Bond>)
    requires Valid(s) && (atomId.Some? ==> atomId.value !in s.atoms)
    requires !(atomId.None? && orderIndex.Some? && orderIndex.value < |s.order|)
    ensures var (t, c', r) := ApplySpec(s, InsertAtom(element, position, atomId, orderIndex), listing);
            var u := UndoSpec(t, c').0;
            ApplySpec(u, c', again).0 == t && ApplySpec(u, c', again).2 == Ok(())
  {
    var (t, c', r) := ApplySpec(s, InsertAtom(element, position, atomId, orderIndex), listing);
    InsertRoundTrip(s, element, position, atomId, orderIndex, listing);
    var u := s.(nextAtomId := t.nextAtomId);
    var id := if atomId.Some? then atomId.value else s.nextAtomId;
    var index := if orderIndex.Some? then orderIndex.value else |s.order|;
    assert id !in s.atoms && id !in s.counts;
    InsertApplied(s, element, position, atomId, orderIndex, listing);
    InsertApplied(u, element, position, Some(id), Some(index), again);
    if atomId.None? {
      assert index >= |s.order|;
      PlaceInOrderInserts(s.order, id, Some(index));
      assert InsertAt(s.order, |s.order|, id) == s.order + [id];
    }
  }

  lemma RedoAddBond(s: MolState, a: AtomId, b: AtomId, bondId: Option<BondId>, listing: seq<Bond>, again: seq<Bond>)
    requires Valid(s) && (bondId.Some? ==> bondId.value !in s.bonds)
    ensures var (t, c', r) := ApplySpec(s, AddBond(a, b, bondId), listing);
            var u := UndoSpec(t, c').0;
            r.Ok? ==> ApplySpec(u, c', again).0 == t && ApplySpec(u, c', again).2 == Ok(())
  {
    var (t, c', r) := ApplySpec(s, AddBond(a, b, bondId), listing);
    if r.Ok? {
      AddBondRoundTrip(s, a, b, bondId, listing);
      ApplyOutcome(s, AddBond(a, b, bondId), listing);
      BondApplied(s, a, b, bondId, listing);
      var u := s.(nextBondId := t.nextBondId);
      var id := c'.bondId.value;
      assert t.nextBondId > id;
      BondCheckIgnoresAllocator(s, t.nextBondId, a, b);
      BondCheckIgnoresAllocator(u, Max(u.nextBondId, id + 1), a, b);
      assert u.(nextBondId := Max(u.nextBondId, id + 1)) == u;
      assert InsertBondWithIdSpec(u, id, a, b) == (Link(u, id, a, b), Ok(id));
      BondWithIdApplied(u, a, b, id, again);
    }
  }

  /** An addition with a recorded id that the checks let through is that checked insertion. */
  lemma BondWithIdApplied(s: MolState, a: AtomId, b: AtomId, id: BondId, listing: seq<Bond>)
    requires !Bonded(s.bonds, a, b) && InsertBondWithIdSpec(s, id, a, b).1 == Ok(id)
    ensures ApplySpec(s, AddBond(a, b, Some(id)), listing)
              == (InsertBondWithIdSpec(s, id, a, b).0, AddBond(a, b, Some(id)), Ok(()))
  {
  }

  /**
   * As written, the first `apply` of an insertion without an id puts the atom at the tail and
   * ignores its order index, but records that index, so a redo puts the atom at the index.
   */
  lemma InsertRedoMovesAtom(s: MolState, element: string, position: Position, j: nat,
                            listing: seq<Bond>, again: seq<Bond>)
    requires Valid(s) && j < |s.order|
    ensures var (t, c', r) := ApplySpec(s, InsertAtom(element, position, None, Some(j)), listing);
            var u := UndoSpec(t, c').0;
            && t.order == s.order + [s.nextAtomId]
            && u.order == s.order
            && ApplySpec(u, c', again).0.order == InsertAt(s.order, j, s.nextAtomId)
            && ApplySpec(u, c', again).0.order != t.order
  {
    var c := InsertAtom(element, position, None, Some(j));
    var (t, c', r) := ApplySpec(s, c, listing);
    InsertRoundTrip(s, element, position, None, Some(j), listing);
    var id := s.nextAtomId;
    assert id !in s.atoms && id !in s.counts;
    InsertApplied(s, element, position, None, Some(j), listing);
    var u := s.(nextAtomId := t.nextAtomId);
    InsertApplied(u, element, position, Some(id), Some(j), again);
    PlaceInOrderInserts(s.order, id, Some(j));
    var redone := InsertAt(s.order, j, id);
    InsertAtElements(s.order, j, id);
    assert redone[j] == id && (s.order + [id])[j] == s.order[j];
  }

  /** Re-inserting bonds never touches the atoms, the order or the atom allocator, failure or not. */
  lemma {:induction false} ReinsertKeepsAtoms(s: MolState, bonds: seq<Bond>)
    ensures var t := ReinsertBonds(s, bonds).0;
            t.atoms == s.atoms && t.order == s.order && t.nextAtomId == s.nextAtomId
    decreases |bonds|
  {
    if bonds != [] {
      var (t, r) := InsertBondWithIdSpec(s, bonds[0].id, bonds[0].a, bonds[0].b);
      if r.Ok? {
        ReinsertKeepsAtoms(t, bonds[1..]);
      }
    }
  }

  /**
   * As written, an undone deletion puts the atom back before its bonds and does not take it out
   * again when a bond cannot be put back: the undo fails with the atom restored and the bond missing.
   */
  lemma UndoDeleteKeepsAtomOnFailure(s: MolState, id: AtomId, ra: RemovedAtom)
    ensures var (t, r) := UndoSpec(s, DeleteAtom(id, Some(ra)));
            && ra.atom.id in t.atoms
            && t.atoms[ra.atom.id] == Atom(ra.atom.id, ra.atom.element, ra.atom.position)
            && (ra.bonds != [] && ra.bonds[0].a !in s.atoms && ra.bonds[0].a != ra.atom.id ==>
                  r == Err(AtomDoesNotExist))
  {
    var t1 := InsertAtomWithIdSpec(s, ra.atom.id, ra.atom.element, ra.atom.position, Some(ra.orderIndex));
    ReinsertKeepsAtoms(t1, ra.bonds);
  }

  // ---------------------------------------------------------------------------
  // Coalescing of moves

  /** Only two moves of the same atom merge; a merge keeps the first source and the last target. */
  lemma MergeWithOutcome(self: Command, other: Command)
    ensures var (m, merged) := MergeWith(self, other);
            && (merged <==> self.MoveAtom? && other.MoveAtom? && self.movedId == other.movedId)
            && (!merged ==> m == self)
            && (merged ==> m == MoveAtom(self.movedId, self.from, other.to))
  {
  }

  /**
   * A merged move does what the two moves did in turn, and its `undo` does what undoing
   * both in turn does.
   */
  lemma MergedMoveActsAsBoth(s: MolState, id: AtomId, from1: Position, to1: Position,
                             from2: Position, to2: Position, listing: seq<Bond>)
    ensures var first := MoveAtom(id, from1, to1);
            var second := MoveAtom(id, from2, to2);
            var (m, merged) := MergeWith(first, second);
            var (t1, _, r1) := ApplySpec(s, first, listing);
            var (t2, _, r2) := ApplySpec(t1, second, listing);
            var (t, _, r) := ApplySpec(s, m, listing);
            && merged
            && t == t2 && (r.Ok? <==> r1.Ok? && r2.Ok?)
            && UndoSpec(t, m) == UndoSpec(UndoSpec(t2, second).0, first)
  {
    if id in s.atoms {
      var atom := s.atoms[id];
      assert s.atoms[id := atom.(position := to1)][id := atom.(position := to2)] == s.atoms[id := atom.(position := to2)];
      var t := s.(atoms := s.atoms[id := atom.(position := to2)]);
      assert t.atoms[id := atom.(position := from2)][id := atom.(position := from1)] == t.atoms[id := atom.(position := from1)];
    }
  }
}
