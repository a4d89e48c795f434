/**
 * The mutable `Molecule` of MolWeaver.  Its fields are the Rust struct's fields;
 * every method is proved to move `State()` exactly as the matching function of
 * module Chem says, so the properties proved about those functions in ChemProps
 * are properties of the methods.  `Keyed()` (every map key is the id stored in
 * its value) is established by the constructor and kept by every method; it is
 * what lets `remove_atom` delete a bond by the id stored in the bond.
 */
module Molecules {
  import opened Wrappers
  import opened Text
  import opened Chem
  import ChemProps

  class Molecule {
    var name: string
    var atoms: map<AtomId, Atom>
    var order: seq<AtomId>
    var bonds: map<BondId, Bond>
    var counts: map<AtomId, nat>
    var nextAtomId: nat
    var nextBondId: nat

    /** The document as a value. */
    function State(): MolState
      reads this
    {
      MolState(atoms, order, bonds, counts, nextAtomId, nextBondId)
    }

    predicate Keyed()
      reads this
    {
      WellKeyed(State())
    }

    /** `Molecule::new`. */
    constructor (name: string)
      ensures this.name == name && State() == EmptyState()
      ensures Keyed() && Valid(State()) && WithinValence(State())
    {
      this.name := name;
      atoms := map[];
      order := [];
      bonds := map[];
      counts := map[];
      nextAtomId := 1;
      nextBondId := 1;
    }

    /** `atom_count`: in a valid molecule, also the length of the order. */
    method AtomCount() returns (n: nat)
      ensures n == |atoms|
      ensures Valid(State()) ==> n == |order|
    {
      n := |atoms|;
      if Valid(State()) {
        ChemProps.OrderListsEveryAtom(State());
      }
    }

    /** `atoms_in_order`: walks the order and keeps the ids that still name an atom. */
    method AtomsInOrder() returns (r: seq<Atom>)
      ensures r == AtomsListed(order, atoms)
      ensures Valid(State()) ==> |r| == |order| == |atoms| && forall i :: 0 <= i < |r| ==> r[i] == atoms[order[i]]
    {
      r := [];
      var i := 0;
      while i < |order|
        invariant 0 <= i <= |order|
        invariant r == AtomsListed(order[..i], atoms)
      {
        assert order[..i + 1][..i] == order[..i];
        if order[i] in atoms {
          r := r + [atoms[order[i]]];
        }
        i := i + 1;
      }
      assert order[..i] == order;
      if Valid(State()) {
        ChemProps.OrderListsEveryAtom(State());
      }
    }

    /** `atom_ids`: a copy of the order. */
    method AtomIds() returns (ids: seq<AtomId>)
      ensures ids == order
      ensures Valid(State()) ==> |ids| == |atoms| && forall x :: x in atoms <==> x in ids
    {
      ids := order;
      if Valid(State()) {
        ChemProps.OrderListsEveryAtom(State());
      }
    }

    /** `get_atom`. */
    method GetAtom(id: AtomId) returns (r: Option<Atom>)
      requires Keyed()
      ensures r.Some? <==> id in atoms
      ensures r.Some? ==> r.value == atoms[id] && r.value.id == id
    {
      if id in atoms {
        r := Some(atoms[id]);
      } else {
        r := None;
      }
    }

    /** `insert_atom`. */
    method InsertAtom(element: string, position: Position) returns (id: AtomId)
      requires Keyed()
      modifies this
      ensures Keyed() && name == old(name)
      ensures (State(), id) == InsertAtomSpec(old(State()), element, position)
    {
      id := nextAtomId;
      nextAtomId := nextAtomId + 1;
      atoms := atoms[id := Atom(id, element, position)];
      order := order + [id];
      counts := counts[id := 0];
    }

    /** `insert_atom_with_id`. */
    method InsertAtomWithId(id: AtomId, element: string, position: Position, orderIndex: Option<nat>)
      returns (r: AtomId)
      requires Keyed()
      modifies this
      ensures Keyed() && name == old(name) && r == id
      ensures State() == InsertAtomWithIdSpec(old(State()), id, element, position, orderIndex)
    {
      nextAtomId := Max(nextAtomId, id + 1);
      atoms := atoms[id := Atom(id, element, position)];
      if orderIndex.Some? {
        var clamped := Min(orderIndex.value, |order|);
        order := order[..clamped] + [id] + order[clamped..];
      } else {
        order := order + [id];
      }
      if id !in counts {
        counts := counts[id := 0];
      }
      r := id;
    }

    /** `iter().position(..).unwrap_or(len)` over the order. */
    method IndexInOrder(id: AtomId) returns (i: nat)
      ensures i == FirstIndex(order, id)
    {
      i := 0;
      while i < |order| && order[i] != id
        invariant 0 <= i <= |order|
        invariant forall j :: 0 <= j < i ==> order[j] != id
      {
        i := i + 1;
      }
    }

    /** The bonds touching `id`, collected in whatever order the map yields them. */
    method IncidentBonds(id: AtomId) returns (listing: seq<Bond>)
      requires Keyed()
      ensures Enumerates(listing, Incident(bonds, id))
    {
      listing := [];
      var pending := bonds.Keys;
      while pending != {}
        invariant pending <= bonds.Keys
        invariant forall i :: 0 <= i < |listing| ==>
                    listing[i].id in bonds && bonds[listing[i].id] == listing[i]
                    && listing[i].id !in pending && Touches(listing[i], id)
        invariant forall i, j :: 0 <= i < j < |listing| ==> listing[i].id != listing[j].id
        invariant forall k :: k in bonds && k !in pending && Touches(bonds[k], id) ==> bonds[k] in listing
        decreases |pending|
      {
        var k :| k in pending;
        if Touches(bonds[k], id) {
          listing := listing + [bonds[k]];
        }
        pending := pending - {k};
      }
    }

    /**
     * `remove_atom`: takes the atom out of the map and the order, removes each
     * bond touching it while lowering the counts of both its ends, and drops the
     * atom's count; hands back the atom, where it stood and the removed bonds.
     */
    method RemoveAtom(id: AtomId) returns (r: Option<RemovedAtom>)
      requires Keyed()
      modifies this
      ensures Keyed() && name == old(name)
      ensures State() == RemoveAtomState(old(State()), id)
      ensures r.Some? <==> id in old(atoms)
      ensures r.Some? ==> && r.value.atom == old(atoms)[id]
                          && r.value.orderIndex == FirstIndex(old(order), id)
                          && Enumerates(r.value.bonds, Incident(old(bonds), id))
    {
      if id !in atoms {
        return None;
      }
      ghost var s0 := State();
      var atom := atoms[id];
      atoms := atoms - {id};
      var i := IndexInOrder(id);
      if i < |order| {
        order := RemoveAt(order, i);
      }
      var listing := IncidentBonds(id);
      DetachAll(listing, Incident(s0.bonds, id));
      counts := counts - {id};
      r := Some(RemovedAtom(atom, i, listing));
    }

    /**
     * The loop of `remove_atom`: removes each listed bond and lowers the counts of
     * both of its ends, saturating at 0.
     */
    method DetachAll(listing: seq<Bond>, ghost removed: map<BondId, Bond>)
      requires Keyed() && Enumerates(listing, removed) && IsSubmap(removed, bonds)
      requires forall k :: k in removed ==> removed[k].id == k
      modifies this
      ensures Keyed()
      ensures bonds == old(bonds) - removed.Keys
      ensures counts == Drained(old(counts), removed)
      ensures atoms == old(atoms) && order == old(order) && name == old(name)
      ensures nextAtomId == old(nextAtomId) && nextBondId == old(nextBondId)
    {
      ghost var done: map<BondId, Bond> := map[];
      var j := 0;
      while j < |listing|
        invariant 0 <= j <= |listing|
        invariant atoms == old(atoms) && order == old(order) && name == old(name)
        invariant nextAtomId == old(nextAtomId) && nextBondId == old(nextBondId)
        invariant IsSubmap(done, removed)
        invariant forall i' :: j <= i' < |listing| ==> listing[i'].id !in done
        invariant forall i' :: 0 <= i' < j ==> listing[i'].id in done
        invariant bonds == old(bonds) - done.Keys
        invariant counts == Drained(old(counts), done)
      {
        var bond := listing[j];
        ChemProps.DrainStep(old(counts), done, bond);
        ghost var done' := done[bond.id := bond];
        ChemProps.RemoveOneMore(old(bonds), done, bond);
        done := done';
        Detach(bond);
        j := j + 1;
      }
      ChemProps.ListedAllRemoved(listing, removed, done);
    }

    /** One step of that loop: the bond leaves the map and both of its ends are lowered. */
    method Detach(bond: Bond)
      requires Keyed()
      modifies this
      ensures Keyed()
      ensures bonds == old(bonds) - {bond.id} && counts == Drop(Drop(old(counts), bond.a), bond.b)
      ensures atoms == old(atoms) && order == old(order) && name == old(name)
      ensures nextAtomId == old(nextAtomId) && nextBondId == old(nextBondId)
    {
      bonds := bonds - {bond.id};
      DecrementValence(bond.a);
      DecrementValence(bond.b);
    }

    /** `set_atom_position`: `false` stands for `None`. */
    method SetAtomPosition(id: AtomId, position: Position) returns (found: bool)
      requires Keyed()
      modifies this
      ensures Keyed() && name == old(name)
      ensures found == (id in old(atoms))
      ensures found ==> State() == SetAtomPositionSpec(old(State()), id, position).value
      ensures !found ==> State() == old(State())
    {
      found := id in atoms;
      if found {
        atoms := atoms[id := atoms[id].(position := position)];
      }
    }

    /** `ensure_atoms_exist`. */
    method EnsureAtomsExist(a: AtomId, b: AtomId) returns (err: Option<EditError>)
      ensures err.None? <==> a in atoms && b in atoms
      ensures err.Some? ==> err.value == AtomDoesNotExist
    {
      if a !in atoms || b !in atoms {
        return Some(AtomDoesNotExist);
      }
      return None;
    }

    /** `ensure_valence_available`: one more bond at `x` must stay within its element's valence. */
    method EnsureValenceAvailable(x: AtomId) returns (err: Option<EditError>)
      ensures x !in atoms ==> err == Some(AtomDoesNotExist)
      ensures x in atoms ==>
                (err.None? <==> HasRoom(State(), x))
                && (err.Some? ==> err.value == ValenceExceeded(atoms[x].element, MaxValence(atoms[x].element)))
    {
      if x !in atoms {
        return Some(AtomDoesNotExist);
      }
      var atom := atoms[x];
      var max := MaxValence(atom.element);
      var current := if x in counts then counts[x] else 0;
      if current + 1 > max {
        return Some(ValenceExceeded(atom.element, max));
      }
      return None;
    }

    /** `increment_valence`. */
    method IncrementValence(x: AtomId)
      modifies this
      ensures counts == Bump(old(counts), x)
      ensures atoms == old(atoms) && order == old(order) && bonds == old(bonds) && name == old(name)
      ensures nextAtomId == old(nextAtomId) && nextBondId == old(nextBondId)
    {
      var current := if x in counts then counts[x] else 0;
      counts := counts[x := current + 1];
    }

    /** `decrement_valence`. */
    method DecrementValence(x: AtomId)
      modifies this
      ensures counts == Drop(old(counts), x)
      ensures atoms == old(atoms) && order == old(order) && bonds == old(bonds) && name == old(name)
      ensures nextAtomId == old(nextAtomId) && nextBondId == old(nextBondId)
    {
      if x in counts {
        counts := counts[x := SatSub(counts[x], 1)];
      }
    }

    /** `add_bond`. */
    method AddBond(a: AtomId, b: AtomId) returns (r: Result<BondId, EditError>)
      requires Keyed()
      modifies this
      ensures Keyed() && name == old(name)
      ensures (State(), r) == AddBondSpec(old(State()), a, b)
    {
      var err := EnsureAtomsExist(a, b);
      if err.Some? {
        return Err(err.value);
      }
      var existing := BondBetween(a, b);
      if existing.Some? {
        return Err(BondAlreadyExists);
      }
      err := EnsureValenceAvailable(a);
      if err.Some? {
        return Err(err.value);
      }
      err := EnsureValenceAvailable(b);
      if err.Some? {
        return Err(err.value);
      }
      assert BondCheck(State(), a, b).None?;
      var id := nextBondId;
      nextBondId := nextBondId + 1;
      Attach(id, a, b);
      r := Ok(id);
    }

    /** `insert_bond_with_id`. */
    method InsertBondWithId(id: BondId, a: AtomId, b: AtomId) returns (r: Result<BondId, EditError>)
      requires Keyed()
      modifies this
      ensures Keyed() && name == old(name)
      ensures (State(), r) == InsertBondWithIdSpec(old(State()), id, a, b)
    {
      var err := EnsureAtomsExist(a, b);
      if err.Some? {
        return Err(err.value);
      }
      nextBondId := Max(nextBondId, id + 1);
      var existing := BondBetween(a, b);
      if existing.Some? {
        return Err(BondAlreadyExists);
      }
      err := EnsureValenceAvailable(a);
      if err.Some? {
        return Err(err.value);
      }
      err := EnsureValenceAvailable(b);
      if err.Some? {
        return Err(err.value);
      }
      assert BondCheck(State(), a, b).None?;
      Attach(id, a, b);
      r := Ok(id);
    }

    /** The insertion both bond operations end with once every check passed. */
    method Attach(id: BondId, a: AtomId, b: AtomId)
      requires Keyed()
      modifies this
      ensures Keyed() && name == old(name)
      ensures State() == Link(old(State()), id, a, b)
    {
      bonds := bonds[id := Bond(id, a, b)];
      IncrementValence(a);
      IncrementValence(b);
    }

    /** `remove_bond`. */
    method RemoveBond(id: BondId) returns (r: Option<Bond>)
      requires Keyed()
      modifies this
      ensures Keyed() && name == old(name)
      ensures (State(), r) == RemoveBondSpec(old(State()), id)
    {
      if id !in bonds {
        return None;
      }
      var bond := bonds[id];
      bonds := bonds - {id};
      DecrementValence(bond.a);
      DecrementValence(bond.b);
      r := Some(bond);
    }

    /** `bond_between`: the first bond, in map order, joining `a` and `b` either way round. */
    method BondBetween(a: AtomId, b: AtomId) returns (r: Option<BondId>)
      requires Keyed()
      ensures r.Some? <==> Bonded(bonds, a, b)
      ensures r.Some? ==> r.value in bonds && Links(bonds[r.value], a, b)
    {
      var pending := bonds.Keys;
      while pending != {}
        invariant pending <= bonds.Keys
        invariant forall k :: k in bonds && k !in pending ==> !Links(bonds[k], a, b)
        decreases |pending|
      {
        var k :| k in pending;
        if Links(bonds[k], a, b) {
          return Some(bonds[k].id);
        }
        pending := pending - {k};
      }
      return None;
    }

    /** `bonds`: every bond once, in whatever order the map yields them. */
    method Bonds() returns (listing: seq<Bond>)
      requires Keyed()
      ensures Enumerates(listing, bonds)
    {
      listing := [];
      var pending := bonds.Keys;
      while pending != {}
        invariant pending <= bonds.Keys
        invariant forall i :: 0 <= i < |listing| ==>
                    listing[i].id in bonds && bonds[listing[i].id] == listing[i] && listing[i].id !in pending
        invariant forall i, j :: 0 <= i < j < |listing| ==> listing[i].id != listing[j].id
        invariant forall k :: k in bonds && k !in pending ==> bonds[k] in listing
        decreases |pending|
      {
        var k :| k in pending;
        listing := listing + [bonds[k]];
        pending := pending - {k};
      }
    }
  }
}
