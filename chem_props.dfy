/**
 * What the mutation primitives of module Chem promise: which invariants each one
 * keeps, what it does to the bond counts, and the two places where the code as
 * written lets an invariant go (a bond from an atom to itself, and re-inserting
 * an id that is already present).
 */
module ChemProps {
  import opened Wrappers
  import opened Text
  import opened Chem

  // ---------------------------------------------------------------------------
  // Bond ends

  lemma DegreeInsert(bonds: map<BondId, Bond>, k: BondId, bond: Bond, x: AtomId)
    requires k !in bonds
    ensures Degree(bonds[k := bond], x) == Degree(bonds, x) + Ends(bond, x)
  {
    EndsAInsert(bonds, k, bond, x);
    EndsBInsert(bonds, k, bond, x);
  }

  lemma EndsAInsert(bonds: map<BondId, Bond>, k: BondId, bond: Bond, x: AtomId)
    requires k !in bonds
    ensures |EndsA(bonds[k := bond], x)| == |EndsA(bonds, x)| + (if bond.a == x then 1 else 0)
  {
    var m := bonds[k := bond];
    if bond.a == x {
      assert EndsA(m, x) == EndsA(bonds, x) + {k};
    } else {
      assert EndsA(m, x) == EndsA(bonds, x);
    }
  }

  lemma EndsBInsert(bonds: map<BondId, Bond>, k: BondId, bond: Bond, x: AtomId)
    requires k !in bonds
    ensures |EndsB(bonds[k := bond], x)| == |EndsB(bonds, x)| + (if bond.b == x then 1 else 0)
  {
    var m := bonds[k := bond];
    if bond.b == x {
      assert EndsB(m, x) == EndsB(bonds, x) + {k};
    } else {
      assert EndsB(m, x) == EndsB(bonds, x);
    }
  }

  lemma DegreeRemove(bonds: map<BondId, Bond>, k: BondId, x: AtomId)
    requires k in bonds
    ensures Degree(bonds - {k}, x) + Ends(bonds[k], x) == Degree(bonds, x)
  {
    DegreeInsert(bonds - {k}, k, bonds[k], x);
    assert (bonds - {k})[k := bonds[k]] == bonds;
  }

  lemma EndsSplit(big: map<BondId, Bond>, part: map<BondId, Bond>, x: AtomId)
    requires IsSubmap(part, big)
    ensures EndsA(big, x) == EndsA(big - part.Keys, x) + EndsA(part, x)
    ensures EndsA(big - part.Keys, x) !! EndsA(part, x)
    ensures EndsB(big, x) == EndsB(big - part.Keys, x) + EndsB(part, x)
    ensures EndsB(big - part.Keys, x) !! EndsB(part, x)
  {
  }

  /** Splitting a bond map in two splits every atom's bond ends the same way. */
  lemma DegreeSplit(big: map<BondId, Bond>, part: map<BondId, Bond>, x: AtomId)
    requires IsSubmap(part, big)
    ensures Degree(big, x) == Degree(big - part.Keys, x) + Degree(part, x)
  {
    EndsSplit(big, part, x);
    var rest := big - part.Keys;
    CardDisjointUnion(EndsA(rest, x), EndsA(part, x));
    CardDisjointUnion(EndsB(rest, x), EndsB(part, x));
  }

  lemma CardDisjointUnion(p: set<BondId>, q: set<BondId>)
    requires p !! q
    ensures |p + q| == |p| + |q|
  {
  }

  lemma DegreeUntouched(bonds: map<BondId, Bond>, x: AtomId)
    requires forall k :: k in bonds ==> !Touches(bonds[k], x)
    ensures Degree(bonds, x) == 0
  {
    assert EndsA(bonds, x) == {};
    assert EndsB(bonds, x) == {};
  }

  /**
   * With at most one bond per pair, the bonds touching `id` reach any other atom
   * `x` with exactly one end when the two are bonded and with none otherwise.
   */
  lemma DegreeOfIncidentAtOther(bonds: map<BondId, Bond>, id: AtomId, x: AtomId)
    requires UniquePairs(bonds) && x != id
    ensures Degree(Incident(bonds, id), x) == if Bonded(bonds, id, x) then 1 else 0
  {
    var inc := Incident(bonds, id);
    if Bonded(bonds, id, x) {
      var k0 :| k0 in bonds && Links(bonds[k0], id, x);
      forall k | k in inc && Touches(inc[k], x) ensures k == k0 {
        assert Links(bonds[k], id, x);
      }
      if bonds[k0].a == x {
        assert EndsA(inc, x) == {k0};
        assert EndsB(inc, x) == {};
      } else {
        assert EndsA(inc, x) == {};
        assert EndsB(inc, x) == {k0};
      }
    } else {
      forall k | k in inc ensures !Touches(inc[k], x) {
        assert !Links(bonds[k], id, x);
      }
      DegreeUntouched(inc, x);
    }
  }

  // ---------------------------------------------------------------------------
  // The order sequence

  lemma RemoveAtKeepsOthers(order: seq<AtomId>, i: nat)
    requires Distinct(order) && i < |order|
    ensures Distinct(RemoveAt(order, i))
    ensures forall x :: x in RemoveAt(order, i) <==> x in order && x != order[i]
  {
    var r := RemoveAt(order, i);
    assert forall j :: 0 <= j < |r| ==> r[j] == if j < i then order[j] else order[j + 1];
    forall x | x in order && x != order[i] ensures x in r {
      var j :| 0 <= j < |order| && order[j] == x;
      if j < i { assert r[j] == x; } else { assert r[j - 1] == x; }
    }
  }

  lemma PlaceInOrderShape(order: seq<AtomId>, id: AtomId, orderIndex: Option<nat>)
    ensures var i := if orderIndex.Some? then Min(orderIndex.value, |order|) else |order|;
            var r := PlaceInOrder(order, id, orderIndex);
            |r| == |order| + 1 && r[i] == id && r[..i] == order[..i] && r[i + 1..] == order[i..]
  {
  }

  /** `PlaceInOrder` is an insertion at `min(index, len)`, or at the tail. */
  lemma PlaceInOrderInserts(order: seq<AtomId>, id: AtomId, orderIndex: Option<nat>)
    ensures var i := if orderIndex.Some? then Min(orderIndex.value, |order|) else |order|;
            PlaceInOrder(order, id, orderIndex) == InsertAt(order, i, id)
  {
    assert order[..|order|] == order && order[|order|..] == [];
  }

  lemma InsertAtElements(order: seq<AtomId>, i: nat, x: AtomId)
    requires i <= |order|
    ensures var r := InsertAt(order, i, x);
            && |r| == |order| + 1 && r[i] == x
            && (forall j :: 0 <= j < i ==> r[j] == order[j])
            && (forall j :: i < j < |r| ==> r[j] == order[j - 1])
  {
  }

  lemma PlaceFreshKeepsDistinct(order: seq<AtomId>, id: AtomId, orderIndex: Option<nat>)
    requires Distinct(order) && id !in order
    ensures Distinct(PlaceInOrder(order, id, orderIndex))
    ensures forall x :: x in PlaceInOrder(order, id, orderIndex) <==> x in order || x == id
  {
    var i := if orderIndex.Some? then Min(orderIndex.value, |order|) else |order|;
    PlaceInOrderInserts(order, id, orderIndex);
    InsertAtFresh(order, i, id);
  }

  /** Inserting an id the order already holds makes it appear twice. */
  lemma InsertAtDuplicates(order: seq<AtomId>, i: nat, id: AtomId)
    requires id in order && i <= |order|
    ensures |InsertAt(order, i, id)| == |order| + 1 && !Distinct(InsertAt(order, i, id))
  {
    var r := InsertAt(order, i, id);
    InsertAtElements(order, i, id);
    var j :| 0 <= j < |order| && order[j] == id;
    if j < i {
      assert r[j] == id && r[i] == id;
    } else {
      assert r[i] == id && r[j + 1] == id;
    }
  }

  lemma InsertAtFresh(order: seq<AtomId>, i: nat, id: AtomId)
    requires Distinct(order) && id !in order && i <= |order|
    ensures Distinct(InsertAt(order, i, id))
    ensures forall x :: x in InsertAt(order, i, id) <==> x in order || x == id
  {
    var r := InsertAt(order, i, id);
    InsertAtElements(order, i, id);
    forall j, k | 0 <= j < k < |r| ensures r[j] != r[k] {
      if k < i {
        assert r[j] == order[j] && r[k] == order[k];
      } else if k == i {
        assert r[j] == order[j];
      } else if j < i {
        assert r[j] == order[j] && r[k] == order[k - 1];
      } else if j == i {
        assert r[k] == order[k - 1];
      } else {
        assert r[j] == order[j - 1] && r[k] == order[k - 1];
      }
    }
    forall x | x in r ensures x in order || x == id {
      var j :| 0 <= j < |r| && r[j] == x;
      if j < i { assert x == order[j]; } else if j > i { assert x == order[j - 1]; }
    }
    forall x | x in order ensures x in r {
      var j :| 0 <= j < |order| && order[j] == x;
      if j < i { assert r[j] == x; } else { assert r[j + 1] == x; }
    }
  }

  // ---------------------------------------------------------------------------
  // Atom insertion

  lemma FreshAtomOrder(s: MolState, t: MolState, id: AtomId)
    requires OrderPermutes(s) && t.atoms.Keys == s.atoms.Keys + {id}
    requires Distinct(t.order) && forall x :: x in t.order <==> x in s.order || x == id
    ensures OrderPermutes(t)
  {
    forall i | 0 <= i < |t.order| ensures t.order[i] in t.atoms {
      assert t.order[i] in t.order;
    }
  }

  lemma FreshAtomCounts(s: MolState, t: MolState, id: AtomId)
    requires CountsExact(s) && EndpointsExist(s) && id !in s.atoms
    requires t.atoms.Keys == s.atoms.Keys + {id}
    requires t.bonds == s.bonds && t.counts == s.counts[id := 0]
    ensures CountsExact(t)
  {
    forall k | k in s.bonds ensures !Touches(s.bonds[k], id) { }
    DegreeUntouched(s.bonds, id);
  }

  /** Adding an atom under an unused id, with count 0 and a place in the order, keeps every invariant. */
  lemma FreshAtomKeepsValid(s: MolState, t: MolState, id: AtomId)
    requires Valid(s) && id !in s.atoms
    requires id in t.atoms && t.atoms[id].id == id && t.atoms - {id} == s.atoms
    requires t.bonds == s.bonds && t.counts == s.counts[id := 0]
    requires t.nextAtomId > id && t.nextAtomId >= s.nextAtomId && t.nextBondId == s.nextBondId
    requires Distinct(t.order) && forall x :: x in t.order <==> x in s.order || x == id
    ensures Valid(t)
  {
    assert t.atoms == s.atoms[id := t.atoms[id]];
    assert t.atoms.Keys == s.atoms.Keys + {id};
    assert WellKeyed(t);
    assert IdsBelow(t);
    assert EndpointsExist(t);
    FreshAtomCounts(s, t, id);
    FreshAtomOrder(s, t, id);
  }

  /** `insert_atom` takes the allocator's id, which is free, and keeps every invariant. */
  lemma InsertAtomKeepsValid(s: MolState, element: string, position: Position)
    requires Valid(s)
    ensures var (t, id) := InsertAtomSpec(s, element, position);
            && id == s.nextAtomId && id !in s.atoms && t.nextAtomId == id + 1
            && t.order == s.order + [id] && CountOf(t, id) == 0
            && Valid(t)
            && (WithinValence(s) ==> WithinValence(t))
  {
    var (t, id) := InsertAtomSpec(s, element, position);
    assert id !in s.atoms;
    PlaceFreshKeepsDistinct(s.order, id, None);
    assert t.order == PlaceInOrder(s.order, id, None);
    FreshRemoved(s.atoms, id, Atom(id, element, position));
    FreshAtomKeepsValid(s, t, id);
    if WithinValence(s) {
      forall x | x in t.atoms ensures CountOf(t, x) <= MaxValence(t.atoms[x].element) {
        if x != id {
          assert CountOf(t, x) == CountOf(s, x) && t.atoms[x] == s.atoms[x];
        }
      }
    }
  }

  lemma FreshRemoved(atoms: map<AtomId, Atom>, id: AtomId, atom: Atom)
    requires id !in atoms
    ensures atoms[id := atom] - {id} == atoms
  {
  }

  /**
   * `insert_atom_with_id` with an id not in use keeps every invariant, places the
   * id at `min(index, len)` (the tail when no index is given) and moves the
   * allocator to `max(next, id + 1)`.
   */
  lemma InsertAtomWithIdKeepsValid(s: MolState, id: AtomId, element: string, position: Position,
                                    orderIndex: Option<nat>)
    requires Valid(s) && id !in s.atoms
    ensures var t := InsertAtomWithIdSpec(s, id, element, position, orderIndex);
            && t.nextAtomId == Max(s.nextAtomId, id + 1) && t.nextAtomId > id
            && t.atoms == s.atoms[id := Atom(id, element, position)]
            && CountOf(t, id) == 0
            && Valid(t)
            && (WithinValence(s) ==> WithinValence(t))
  {
    var t := InsertAtomWithIdSpec(s, id, element, position, orderIndex);
    assert id !in s.counts && id !in s.order;
    assert t.counts == s.counts[id := 0];
    FreshRemoved(s.atoms, id, Atom(id, element, position));
    PlaceFreshKeepsDistinct(s.order, id, orderIndex);
    FreshAtomKeepsValid(s, t, id);
  }

  /**
   * As written, `insert_atom_with_id` does not look for the id first: with an id
   * already present the atom is overwritten and the order then lists it twice.
   */
  lemma InsertAtomWithIdDuplicatesOrder(s: MolState, id: AtomId, element: string, position: Position,
                                         orderIndex: Option<nat>)
    requires Valid(s) && id in s.atoms
    ensures var t := InsertAtomWithIdSpec(s, id, element, position, orderIndex);
            |t.atoms| == |s.atoms| && |t.order| == |s.order| + 1 && !Distinct(t.order) && !Valid(t)
  {
    var t := InsertAtomWithIdSpec(s, id, element, position, orderIndex);
    assert t.atoms.Keys == s.atoms.Keys && id in s.order;
    var i := if orderIndex.Some? then Min(orderIndex.value, |s.order|) else |s.order|;
    PlaceInOrderInserts(s.order, id, orderIndex);
    InsertAtDuplicates(s.order, i, id);
  }

  // ---------------------------------------------------------------------------
  // Atom removal

  lemma RemoveAtomOrder(s: MolState, id: AtomId)
    requires OrderPermutes(s) && id in s.atoms
    ensures var t := RemoveAtomState(s, id);
            OrderPermutes(t) && id !in t.order
  {
    var t := RemoveAtomState(s, id);
    var i := FirstIndex(s.order, id);
    assert i < |s.order|;
    RemoveAtKeepsOthers(s.order, i);
    assert t.order == RemoveAt(s.order, i);
    forall j | 0 <= j < |t.order| ensures t.order[j] in t.atoms {
      assert t.order[j] in t.order;
    }
  }

  /** Draining the ends of a sub-map from exact counts leaves the exact counts of what is left. */
  lemma DrainedExact(counts: map<AtomId, nat>, bonds: map<BondId, Bond>, part: map<BondId, Bond>, x: AtomId)
    requires x in counts && counts[x] == Degree(bonds, x) && IsSubmap(part, bonds)
    ensures x in Drained(counts, part) && Drained(counts, part)[x] == Degree(bonds - part.Keys, x)
  {
    DegreeSplit(bonds, part, x);
  }

  lemma RemoveAtomDrains(s: MolState, id: AtomId, x: AtomId)
    requires id in s.atoms && x in s.counts && x != id
    ensures var t := RemoveAtomState(s, id);
            x in t.counts && t.counts[x] == SatSub(s.counts[x], Degree(Incident(s.bonds, id), x))
  {
  }

  lemma DrainIncidentAtOther(bonds: map<BondId, Bond>, id: AtomId, x: AtomId, c: nat)
    requires UniquePairs(bonds) && x != id && c >= Degree(Incident(bonds, id), x)
    ensures SatSub(c, Degree(Incident(bonds, id), x)) + (if Bonded(bonds, id, x) then 1 else 0) == c
  {
    DegreeOfIncidentAtOther(bonds, id, x);
  }

  lemma RemoveAtomCountAt(s: MolState, id: AtomId, x: AtomId)
    requires CountsExact(s) && UniquePairs(s.bonds) && id in s.atoms
    requires x in s.counts && x != id
    ensures var t := RemoveAtomState(s, id);
            && x in t.counts
            && t.counts[x] == Degree(t.bonds, x)
            && t.counts[x] + (if Bonded(s.bonds, id, x) then 1 else 0) == s.counts[x]
  {
    var inc := Incident(s.bonds, id);
    RemoveAtomDrains(s, id, x);
    assert IsSubmap(inc, s.bonds);
    DegreeSplit(s.bonds, inc, x);
    DrainIncidentAtOther(s.bonds, id, x, s.counts[x]);
    DegreeOfIncidentAtOther(s.bonds, id, x);
  }

  lemma RemoveAtomCounts(s: MolState, id: AtomId)
    requires CountsExact(s) && UniquePairs(s.bonds) && id in s.atoms
    ensures var t := RemoveAtomState(s, id);
            && CountsExact(t)
            && (forall x :: x in t.counts ==>
                  t.counts[x] + (if Bonded(s.bonds, id, x) then 1 else 0) == s.counts[x])
  {
    var t := RemoveAtomState(s, id);
    var inc := Incident(s.bonds, id);
    var drained: map<AtomId, nat> := Drained(s.counts, inc);
    assert t.counts == drained - {id};
    assert drained.Keys == s.counts.Keys;
    forall x | x in t.counts
      ensures x in s.counts
      ensures t.counts[x] == Degree(t.bonds, x)
      ensures t.counts[x] + (if Bonded(s.bonds, id, x) then 1 else 0) == s.counts[x]
    {
      RemoveAtomCountAt(s, id, x);
    }
  }

  /** Which bonds, atoms and allocators survive `remove_atom`. */
  lemma RemoveAtomShape(s: MolState, id: AtomId)
    requires id in s.atoms
    ensures var t := RemoveAtomState(s, id);
            && t.atoms == s.atoms - {id}
            && (forall k :: k in t.bonds <==> k in s.bonds && !Touches(s.bonds[k], id))
            && (forall k :: k in t.bonds ==> t.bonds[k] == s.bonds[k])
            && t.nextAtomId == s.nextAtomId && t.nextBondId == s.nextBondId
  {
  }

  /** The structural invariants on atoms and bonds survive `remove_atom`. */
  lemma RemoveAtomStructure(s: MolState, id: AtomId)
    requires WellKeyed(s) && IdsBelow(s) && EndpointsExist(s) && UniquePairs(s.bonds) && id in s.atoms
    ensures var t := RemoveAtomState(s, id);
            WellKeyed(t) && IdsBelow(t) && EndpointsExist(t) && UniquePairs(t.bonds)
  {
    var t := RemoveAtomState(s, id);
    RemoveAtomShape(s, id);
    assert EndpointsExist(t) by {
      forall k | k in t.bonds ensures t.bonds[k].a in t.atoms && t.bonds[k].b in t.atoms {
        assert !Touches(s.bonds[k], id);
      }
    }
  }

  /** Removing an atom removes bonds only, so every remaining atom stays within its valence. */
  lemma RemoveAtomWithin(s: MolState, id: AtomId)
    requires WithinValence(s) && CountsExact(s) && UniquePairs(s.bonds) && id in s.atoms
    ensures WithinValence(RemoveAtomState(s, id))
  {
    var t := RemoveAtomState(s, id);
    RemoveAtomCounts(s, id);
    forall x | x in t.atoms ensures CountOf(t, x) <= MaxValence(t.atoms[x].element) {
      assert x in t.counts && CountOf(t, x) <= CountOf(s, x);
    }
  }

  /**
   * `remove_atom` on an atom of a valid molecule removes exactly the bonds that
   * touch it, lowers every other atom's count by one if it was bonded to the
   * removed atom, takes the atom out of the map, the order and the counts, and
   * keeps every invariant.
   */
  lemma RemoveAtomKeepsValid(s: MolState, id: AtomId)
    requires Valid(s) && id in s.atoms
    ensures var t := RemoveAtomState(s, id);
            && t.atoms == s.atoms - {id}
            && id !in t.order
            && (forall k :: k in t.bonds <==> k in s.bonds && !Touches(s.bonds[k], id))
            && (forall k :: k in t.bonds ==> t.bonds[k] == s.bonds[k])
            && (forall x :: x in t.counts ==>
                  t.counts[x] + (if Bonded(s.bonds, id, x) then 1 else 0) == s.counts[x])
            && t.nextAtomId == s.nextAtomId && t.nextBondId == s.nextBondId
            && Valid(t)
            && (WithinValence(s) ==> WithinValence(t))
  {
    var t := RemoveAtomState(s, id);
    RemoveAtomShape(s, id);
    RemoveAtomOrder(s, id);
    RemoveAtomCounts(s, id);
    RemoveAtomStructure(s, id);
    if WithinValence(s) {
      RemoveAtomWithin(s, id);
    }
  }

  // ---------------------------------------------------------------------------
  // Bond insertion

  /** The iff of `add_bond`'s checks, and: a rejected call changes nothing. */
  lemma AddBondOutcome(s: MolState, a: AtomId, b: AtomId)
    ensures var (t, r) := AddBondSpec(s, a, b);
            && (r.Ok? <==> a in s.atoms && b in s.atoms && !Bonded(s.bonds, a, b) && HasRoom(s, a) && HasRoom(s, b))
            && (r.Err? ==> t == s)
            && (r.Ok? ==> r.value == s.nextBondId && t.nextBondId == s.nextBondId + 1)
  {
  }

  /** Bumping both endpoints adds each key's ends and adds no key beyond the endpoints. */
  lemma BumpBoth(c: map<AtomId, nat>, bond: Bond)
    ensures Bump(Bump(c, bond.a), bond.b).Keys == c.Keys + {bond.a, bond.b}
    ensures forall x :: x in c ==> Bump(Bump(c, bond.a), bond.b)[x] == c[x] + Ends(bond, x)
  {
  }

  /** A new bond between two atoms not yet bonded keeps at most one bond per pair. */
  lemma LinkUniquePairs(bonds: map<BondId, Bond>, id: BondId, a: AtomId, b: AtomId)
    requires UniquePairs(bonds) && id !in bonds && !Bonded(bonds, a, b)
    ensures UniquePairs(bonds[id := Bond(id, a, b)])
  {
    var t := bonds[id := Bond(id, a, b)];
    var bond := Bond(id, a, b);
    forall k, k' | k in t && k' in t && k != k'
      ensures !Links(t[k'], t[k].a, t[k].b)
    {
      if k == id {
        assert !Links(bonds[k'], a, b);
      } else if k' == id {
        assert !Links(bonds[k], a, b);
      }
    }
  }

  /** After the insertion each count is still the number of bond ends. */
  lemma LinkCounts(s: MolState, id: BondId, a: AtomId, b: AtomId)
    requires CountsExact(s) && id !in s.bonds && a in s.atoms && b in s.atoms
    ensures var t := Link(s, id, a, b);
            && CountsExact(t)
            && (forall x :: x in t.counts ==> x in s.counts && t.counts[x] == s.counts[x] + Ends(Bond(id, a, b), x))
  {
    var t := Link(s, id, a, b);
    var bond := Bond(id, a, b);
    BumpBoth(s.counts, bond);
    assert t.counts.Keys == s.counts.Keys;
    forall x | x in t.counts ensures t.counts[x] == Degree(t.bonds, x) {
      DegreeInsert(s.bonds, id, bond, x);
    }
  }

  /** The checked insertion with a free id keeps every invariant and adds one end per endpoint. */
  lemma LinkKeepsValid(s: MolState, id: BondId, a: AtomId, b: AtomId)
    requires Valid(s) && id !in s.bonds && id < s.nextBondId
    requires a in s.atoms && b in s.atoms && !Bonded(s.bonds, a, b)
    ensures var t := Link(s, id, a, b);
            && Valid(t)
            && t.bonds == s.bonds[id := Bond(id, a, b)]
            && (forall x :: x in t.counts ==> x in s.counts && t.counts[x] == s.counts[x] + Ends(Bond(id, a, b), x))
  {
    var t := Link(s, id, a, b);
    LinkUniquePairs(s.bonds, id, a, b);
    LinkCounts(s, id, a, b);
    LinkStructure(s, id, a, b);
  }

  /** The insertion keeps the keys, the allocators, the endpoints and the order consistent. */
  lemma LinkStructure(s: MolState, id: BondId, a: AtomId, b: AtomId)
    requires WellKeyed(s) && IdsBelow(s) && EndpointsExist(s) && OrderPermutes(s)
    requires id < s.nextBondId && a in s.atoms && b in s.atoms
    ensures var t := Link(s, id, a, b);
            WellKeyed(t) && IdsBelow(t) && EndpointsExist(t) && OrderPermutes(t)
  {
    var t := Link(s, id, a, b);
    assert WellKeyed(t);
    assert EndpointsExist(t);
  }

  /** The insertion adds the new bond's ends to each atom's count. */
  lemma LinkCountOf(s: MolState, id: BondId, a: AtomId, b: AtomId, x: AtomId)
    ensures CountOf(Link(s, id, a, b), x) == CountOf(s, x) + Ends(Bond(id, a, b), x)
  {
  }

  /** A bond between two distinct atoms that both have room keeps every atom within its valence. */
  lemma LinkWithinValence(s: MolState, id: BondId, a: AtomId, b: AtomId)
    requires WithinValence(s) && a != b && a in s.atoms && b in s.atoms && HasRoom(s, a) && HasRoom(s, b)
    ensures WithinValence(Link(s, id, a, b))
  {
    var t := Link(s, id, a, b);
    forall x | x in t.atoms ensures CountOf(t, x) <= MaxValence(t.atoms[x].element) {
      LinkCountOf(s, id, a, b, x);
    }
  }

  /** Raising the bond allocator keeps every invariant. */
  lemma RaiseBondAllocator(s: MolState, n: nat)
    requires Valid(s) && s.nextBondId <= n
    ensures Valid(s.(nextBondId := n)) && WithinValence(s) == WithinValence(s.(nextBondId := n))
    ensures s.nextBondId !in s.bonds
  {
    var t := s.(nextBondId := n);
    assert IdsBelow(t);
    assert CountsExact(t);
  }

  /** The insertion `add_bond` performs once every check passed, on the raised allocator. */
  lemma AddBondLinksValid(s: MolState, a: AtomId, b: AtomId)
    requires Valid(s) && BondCheck(s, a, b).None?
    ensures var id := s.nextBondId;
            var t := Link(s.(nextBondId := id + 1), id, a, b);
            && Valid(t)
            && t.bonds == s.bonds[id := Bond(id, a, b)] && id !in s.bonds
            && (forall x :: x in t.counts ==> x in s.counts && t.counts[x] == s.counts[x] + Ends(Bond(id, a, b), x))
            && (a != b && WithinValence(s) ==> WithinValence(t))
  {
    var id := s.nextBondId;
    var s1 := s.(nextBondId := id + 1);
    RaiseBondAllocator(s, id + 1);
    LinkKeepsValid(s1, id, a, b);
    if a != b && WithinValence(s) {
      LinkWithinValence(s1, id, a, b);
    }
  }

  /**
   * A successful `add_bond` on a valid molecule keeps every invariant and raises
   * the count of each endpoint by one (by two for a bond from an atom to itself);
   * between two distinct atoms it also keeps every atom within its valence.
   */
  lemma AddBondKeepsValid(s: MolState, a: AtomId, b: AtomId)
    requires Valid(s)
    ensures var (t, r) := AddBondSpec(s, a, b);
            r.Ok? ==>
              && Valid(t)
              && t.bonds == s.bonds[r.value := Bond(r.value, a, b)] && r.value !in s.bonds
              && (forall x :: x in t.counts ==> x in s.counts && t.counts[x] == s.counts[x] + Ends(Bond(r.value, a, b), x))
              && (a != b && WithinValence(s) ==> WithinValence(t))
  {
    if BondCheck(s, a, b).None? {
      AddBondLinksValid(s, a, b);
    }
  }

  /** After a successful `add_bond(a, b)`, adding the bond again either way round fails as a duplicate. */
  lemma AddBondRejectsDuplicate(s: MolState, a: AtomId, b: AtomId)
    ensures var (t, r) := AddBondSpec(s, a, b);
            r.Ok? ==> (AddBondSpec(t, a, b) == (t, Err(BondAlreadyExists))
                       && AddBondSpec(t, b, a) == (t, Err(BondAlreadyExists)))
  {
    var (t, r) := AddBondSpec(s, a, b);
    if r.Ok? {
      assert Links(t.bonds[r.value], a, b);
      assert Links(t.bonds[r.value], b, a);
    }
  }

  /** An atom already at its element's valence takes no further bond, and the molecule is untouched. */
  lemma AddBondAtCapacityFails(s: MolState, a: AtomId, b: AtomId)
    requires a in s.atoms && b in s.atoms && !Bonded(s.bonds, a, b)
    requires CountOf(s, a) >= MaxValence(s.atoms[a].element)
    ensures AddBondSpec(s, a, b)
            == (s, Err(ValenceExceeded(s.atoms[a].element, MaxValence(s.atoms[a].element))))
  {
  }

  /**
   * As written, `add_bond(a, a)` passes every check and counts two ends at `a`:
   * an atom one bond short of its valence ends up one over it.
   */
  lemma SelfBondExceedsValence(s: MolState, a: AtomId)
    requires Valid(s) && a in s.atoms && !Bonded(s.bonds, a, a)
    requires CountOf(s, a) + 1 == MaxValence(s.atoms[a].element)
    ensures var (t, r) := AddBondSpec(s, a, a);
            r.Ok? && CountOf(t, a) == MaxValence(s.atoms[a].element) + 1 && !WithinValence(t)
  {
    var (t, r) := AddBondSpec(s, a, a);
    assert t.atoms == s.atoms;
    assert CountOf(t, a) > MaxValence(t.atoms[a].element);
  }

  /** The smallest such case: one hydrogen bonded to itself holds two bonds against a valence of one. */
  lemma SelfBondOnHydrogen(p: Position)
    ensures var (s, id) := InsertAtomSpec(EmptyState(), "H", p);
            var (t, r) := AddBondSpec(s, id, id);
            id == 1 && r == Ok(1) && CountOf(t, 1) == 2 && MaxValence("H") == 1 && !WithinValence(t)
  {
    var (s, id) := InsertAtomSpec(EmptyState(), "H", p);
    InsertAtomKeepsValid(EmptyState(), "H", p);
    assert !Bonded(s.bonds, id, id);
    HydrogenValence();
    SelfBondExceedsValence(s, id);
  }

  lemma HydrogenValence()
    ensures MaxValence("H") == 1
  {
    var h := "H";
    assert !IsWhitespace(h[0]);
    TrimStartIdle(h);
    TrimEndIdle(h);
    assert ToAsciiUpper(h)[0] == h[0];
    assert ToAsciiUpper(h) == h;
  }

  /**
   * `insert_bond_with_id`: a call that finds both atoms moves the allocator past
   * `id` even when it then rejects the bond; a rejected call changes nothing else,
   * and a call missing an atom returns before the allocator moves.
   */
  lemma InsertBondWithIdOutcome(s: MolState, id: BondId, a: AtomId, b: AtomId)
    ensures var (t, r) := InsertBondWithIdSpec(s, id, a, b);
            && (r.Ok? <==> a in s.atoms && b in s.atoms && !Bonded(s.bonds, a, b) && HasRoom(s, a) && HasRoom(s, b))
            && (r.Ok? ==> r.value == id)
            && (a in s.atoms && b in s.atoms ==> t.nextBondId == Max(s.nextBondId, id + 1))
            && (r.Err? ==> t == s.(nextBondId := t.nextBondId))
            && (a !in s.atoms || b !in s.atoms ==> t == s && r == Err(AtomDoesNotExist))
  {
  }

  /** With an id not in use, a successful `insert_bond_with_id` keeps every invariant. */
  lemma InsertBondWithIdKeepsValid(s: MolState, id: BondId, a: AtomId, b: AtomId)
    requires Valid(s) && id !in s.bonds
    ensures var (t, r) := InsertBondWithIdSpec(s, id, a, b);
            r.Ok? ==>
              && Valid(t)
              && t.bonds == s.bonds[id := Bond(id, a, b)]
              && (forall x :: x in t.counts ==> x in s.counts && t.counts[x] == s.counts[x] + Ends(Bond(id, a, b), x))
              && (a != b && WithinValence(s) ==> WithinValence(t))
  {
    if a in s.atoms && b in s.atoms {
      var s1 := s.(nextBondId := Max(s.nextBondId, id + 1));
      RaiseBondAllocator(s, Max(s.nextBondId, id + 1));
      if BondCheck(s1, a, b).None? {
        assert InsertBondWithIdSpec(s, id, a, b) == (Link(s1, id, a, b), Ok(id));
        LinkKeepsValid(s1, id, a, b);
        if a != b && WithinValence(s) {
          LinkWithinValence(s1, id, a, b);
        }
      }
    }
  }

  // ---------------------------------------------------------------------------
  // Bond removal and moves

  /** Dropping both endpoints of a bond whose ends a count covers lowers that count by exactly the ends. */
  lemma DropBoth(c: map<AtomId, nat>, bond: Bond, x: AtomId)
    requires x in c && Ends(bond, x) <= c[x]
    ensures x in Drop(Drop(c, bond.a), bond.b)
    ensures Drop(Drop(c, bond.a), bond.b)[x] + Ends(bond, x) == c[x]
  {
  }

  /** After `remove_bond` each count is still the number of bond ends. */
  lemma RemoveBondCounts(s: MolState, id: BondId)
    requires CountsExact(s) && EndpointsExist(s) && id in s.bonds
    ensures var (t, _) := RemoveBondSpec(s, id);
            && CountsExact(t)
            && (forall x :: x in t.counts ==> t.counts[x] + Ends(s.bonds[id], x) == s.counts[x])
  {
    var (t, _) := RemoveBondSpec(s, id);
    var bond := s.bonds[id];
    assert t.counts.Keys == s.counts.Keys;
    forall x | x in t.counts
      ensures t.counts[x] + Ends(bond, x) == s.counts[x]
      ensures t.counts[x] == Degree(t.bonds, x)
    {
      DegreeRemove(s.bonds, id, x);
      DropBoth(s.counts, bond, x);
    }
  }

  /** Removing a bond keeps every atom within its valence. */
  lemma RemoveBondWithin(s: MolState, id: BondId)
    requires WithinValence(s) && CountsExact(s) && EndpointsExist(s) && id in s.bonds
    ensures WithinValence(RemoveBondSpec(s, id).0)
  {
    var t := RemoveBondSpec(s, id).0;
    RemoveBondCounts(s, id);
    forall x | x in t.atoms ensures CountOf(t, x) <= MaxValence(t.atoms[x].element) {
      assert x in t.counts && CountOf(t, x) <= CountOf(s, x);
    }
  }

  /** `remove_bond` of a present bond keeps every invariant and lowers each endpoint's count by its ends. */
  lemma RemoveBondKeepsValid(s: MolState, id: BondId)
    requires Valid(s) && id in s.bonds
    ensures var (t, r) := RemoveBondSpec(s, id);
            && r == Some(s.bonds[id])
            && t.bonds == s.bonds - {id}
            && (forall x :: x in t.counts ==> t.counts[x] + Ends(s.bonds[id], x) == s.counts[x])
            && Valid(t)
            && (WithinValence(s) ==> WithinValence(t))
  {
    var (t, r) := RemoveBondSpec(s, id);
    RemoveBondCounts(s, id);
    assert WellKeyed(t) && IdsBelow(t) && EndpointsExist(t) && UniquePairs(t.bonds) && OrderPermutes(t);
    if WithinValence(s) {
      RemoveBondWithin(s, id);
    }
  }

  /** `set_atom_position` changes one atom's position and nothing else. */
  lemma SetAtomPositionKeepsValid(s: MolState, id: AtomId, position: Position)
    requires Valid(s)
    ensures var r := SetAtomPositionSpec(s, id, position);
            && (r.Some? <==> id in s.atoms)
            && (r.Some? ==> Valid(r.value) && (WithinValence(s) ==> WithinValence(r.value))
                            && r.value.atoms[id].position == position)
  {
    if id in s.atoms {
      var t := SetAtomPositionSpec(s, id, position).value;
      assert t == s.(atoms := t.atoms);
      forall k | k in s.atoms ensures k in t.atoms && t.atoms[k] == s.atoms[k].(position := t.atoms[k].position) {
      }
      assert t.atoms.Keys == s.atoms.Keys;
      MovedKeepsValid(s, t.atoms);
    }
  }

  /** Moving atoms changes neither their ids nor their elements, so both invariants hold on. */
  lemma MovedKeepsValid(s: MolState, atoms: map<AtomId, Atom>)
    requires Valid(s) && atoms.Keys == s.atoms.Keys
    requires forall k :: k in s.atoms ==> atoms[k] == s.atoms[k].(position := atoms[k].position)
    ensures Valid(s.(atoms := atoms))
    ensures WithinValence(s) ==> WithinValence(s.(atoms := atoms))
  {
    var t := s.(atoms := atoms);
    assert WellKeyed(t) && IdsBelow(t) && EndpointsExist(t);
    assert CountsExact(t);
    assert OrderPermutes(t);
    if WithinValence(s) {
      forall x | x in t.atoms ensures CountOf(t, x) <= MaxValence(t.atoms[x].element) {
        assert t.atoms[x].element == s.atoms[x].element;
      }
    }
  }

  // ---------------------------------------------------------------------------
  // Queries

  /** Two saturating decrements are one of their sum. */
  lemma SatSubTwice(c: nat, d: nat, e: nat)
    ensures SatSub(SatSub(c, d), e) == SatSub(c, d + e)
  {
  }

  /** Draining one more bond is decrementing each of its two ends once more. */
  lemma DrainStep(c: map<AtomId, nat>, done: map<BondId, Bond>, bond: Bond)
    requires bond.id !in done
    ensures Drained(c, done[bond.id := bond]) == Drop(Drop(Drained(c, done), bond.a), bond.b)
  {
    var lhs := Drained(c, done[bond.id := bond]);
    var d := Drained(c, done);
    var rhs := Drop(Drop(d, bond.a), bond.b);
    assert lhs.Keys == c.Keys && d.Keys == c.Keys;
    forall x | x in lhs ensures x in rhs && lhs[x] == rhs[x] {
      DropTwice(d, bond, x);
      DegreeInsert(done, bond.id, bond, x);
      SatSubTwice(c[x], Degree(done, x), Ends(bond, x));
    }
    forall x | x in rhs ensures x in lhs {
      DropTwice(d, bond, x);
    }
  }

  lemma RemoveOneMore(bonds: map<BondId, Bond>, done: map<BondId, Bond>, bond: Bond)
    ensures bonds - done[bond.id := bond].Keys == (bonds - done.Keys) - {bond.id}
  {
  }

  /** Once every listed bond is done, and only removed bonds are, exactly the removed bonds are done. */
  lemma ListedAllRemoved(listing: seq<Bond>, removed: map<BondId, Bond>, done: map<BondId, Bond>)
    requires Enumerates(listing, removed) && IsSubmap(done, removed)
    requires forall k :: k in removed ==> removed[k].id == k
    requires forall i :: 0 <= i < |listing| ==> listing[i].id in done
    ensures done == removed
  {
    forall k | k in removed ensures k in done {
      var i :| 0 <= i < |listing| && listing[i] == removed[k];
    }
  }

  /** Dropping both ends of a bond lowers each count by that atom's ends of the bond. */
  lemma DropTwice(m: map<AtomId, nat>, bond: Bond, x: AtomId)
    ensures x in Drop(Drop(m, bond.a), bond.b) <==> x in m
    ensures x in m ==> Drop(Drop(m, bond.a), bond.b)[x] == SatSub(m[x], Ends(bond, x))
  {
  }

  /** When every id names an atom, `atoms_in_order` yields one atom per id, in order. */
  lemma {:induction false} AtomsListedShape(ids: seq<AtomId>, atoms: map<AtomId, Atom>)
    requires forall i :: 0 <= i < |ids| ==> ids[i] in atoms
    ensures |AtomsListed(ids, atoms)| == |ids|
    ensures forall i :: 0 <= i < |ids| ==> AtomsListed(ids, atoms)[i] == atoms[ids[i]]
  {
    if ids != [] {
      var init := ids[..|ids| - 1];
      assert forall i :: 0 <= i < |init| ==> init[i] == ids[i];
      AtomsListedShape(init, atoms);
    }
  }

  /** A duplicate-free sequence has as many elements as its set. */
  lemma {:induction false} DistinctCard(ids: seq<AtomId>)
    requires Distinct(ids)
    ensures |set x: AtomId | x in ids| == |ids|
  {
    if ids != [] {
      var init := ids[..|ids| - 1];
      var last := ids[|ids| - 1];
      assert ids == init + [last];
      assert Distinct(init);
      DistinctCard(init);
      assert last !in (set x: AtomId | x in init);
      assert (set x: AtomId | x in ids) == (set x: AtomId | x in init) + {last};
      assert last !in init;
    } else {
      assert (set x: AtomId | x in ids) == {};
    }
  }

  /**
   * Once the order lists each atom key exactly once, `atom_count`, the length of `atom_ids` and the length of
   * `atoms_in_order` agree, and `atoms_in_order` yields the atom of each id in the order.
   */
  lemma OrderListsEveryAtom(s: MolState)
    requires WellKeyed(s) && OrderPermutes(s)
    ensures |s.order| == |s.atoms|
    ensures |AtomsListed(s.order, s.atoms)| == |s.atoms|
    ensures forall i :: 0 <= i < |s.order| ==>
              AtomsListed(s.order, s.atoms)[i] == s.atoms[s.order[i]]
              && AtomsListed(s.order, s.atoms)[i].id == s.order[i]
  {
    DistinctCard(s.order);
    assert (set x: AtomId | x in s.order) == s.atoms.Keys;
    AtomsListedShape(s.order, s.atoms);
  }
}
