/**
 * The undoable edit commands of MolWeaver.  A command carries what it needs to
 * be undone: `apply` fills in the id it was given or the data it removed, and
 * `undo` reads it back.  `ApplySpec` and `UndoSpec` say what the two do to the
 * document as a value; the methods `Apply` and `Undo` are proved to do that to a
 * `Molecule`.
 */
module Commands {
  import opened Wrappers
  import opened Text
  import opened Chem
  import opened Molecules

  datatype Command =
    | InsertAtom(element: string, position: Position, atomId: Option<AtomId>, orderIndex: Option<nat>)
    | DeleteAtom(deletedId: AtomId, removedAtom: Option<RemovedAtom>)
    | AddBond(atomA: AtomId, atomB: AtomId, bondId: Option<BondId>)
    | RemoveBond(removedBondId: BondId, removedBond: Option<Bond>)
    | MoveAtom(movedId: AtomId, from: Position, to: Position)

  /** The bonds a performed deletion captured, in the order it met them. */
  function Captured(c: Command): seq<Bond> {
    if c.DeleteAtom? && c.removedAtom.Some? then c.removedAtom.value.bonds else []
  }

  /**
   * `Command::apply`: the new document, the command with its undo data filled in,
   * and the outcome.  `listing` is the order in which the deletion meets the bonds
   * of the deleted atom (the map's iteration order); nothing else depends on it.
   */
  function ApplySpec(s: MolState, c: Command, listing: seq<Bond>): (MolState, Command, Result<(), EditError>) {
    match c
    case InsertAtom(element, position, atomId, orderIndex) =>
      var index := if orderIndex.Some? then orderIndex.value else |s.order|;
      if atomId.Some? then
        (InsertAtomWithIdSpec(s, atomId.value, element, position, Some(index)),
         InsertAtom(element, position, atomId, Some(index)), Ok(()))
      else
        var (t, id) := InsertAtomSpec(s, element, position);
        (t, InsertAtom(element, position, Some(id), Some(index)), Ok(()))
    case DeleteAtom(id, _) =>
      if id !in s.atoms then (s, c, Err(AtomNotFound))
      else
        (RemoveAtomState(s, id),
         DeleteAtom(id, Some(RemovedAtom(s.atoms[id], FirstIndex(s.order, id), listing))), Ok(()))
    case AddBond(a, b, bondId) =>
      if Bonded(s.bonds, a, b) then (s, c, Err(BondAlreadyExists))
      else
        var (t, r) := if bondId.Some? then InsertBondWithIdSpec(s, bondId.value, a, b) else AddBondSpec(s, a, b);
        if r.Err? then (t, c, Err(r.error)) else (t, AddBond(a, b, Some(r.value)), Ok(()))
    case RemoveBond(id, _) =>
      var (t, r) := RemoveBondSpec(s, id);
      if r.None? then (s, c, Err(BondNotFound)) else (t, RemoveBond(id, r), Ok(()))
    case MoveAtom(id, _, to) =>
      var t := SetAtomPositionSpec(s, id, to);
      if t.None? then (s, c, Err(AtomNotFound)) else (t.value, c, Ok(()))
  }

  /** The bonds of an undone deletion put back one by one; the first failure stops the rest. */
  function ReinsertBonds(s: MolState, bonds: seq<Bond>): (MolState, Result<(), EditError>)
    decreases |bonds|
  {
    if bonds == [] then (s, Ok(()))
    else
      var (t, r) := InsertBondWithIdSpec(s, bonds[0].id, bonds[0].a, bonds[0].b);
      if r.Err? then (t, Err(r.error)) else ReinsertBonds(t, bonds[1..])
  }

  /** `Command::undo`. */
  function UndoSpec(s: MolState, c: Command): (MolState, Result<(), EditError>) {
    match c
    case InsertAtom(_, _, atomId, _) =>
      if atomId.None? then (s, Err(CommandMissingData))
      else if atomId.value !in s.atoms then (s, Err(AtomNotFound))
      else (RemoveAtomState(s, atomId.value), Ok(()))
    case DeleteAtom(_, removed) =>
      if removed.None? then (s, Err(MissingUndoData))
      else
        var ra := removed.value;
        var t := InsertAtomWithIdSpec(s, ra.atom.id, ra.atom.element, ra.atom.position, Some(ra.orderIndex));
        ReinsertBonds(t, ra.bonds)
    case AddBond(_, _, bondId) =>
      if bondId.None? then (s, Err(CommandMissingData))
      else
        var (t, r) := RemoveBondSpec(s, bondId.value);
        if r.None? then (s, Err(BondNotFound)) else (t, Ok(()))
    case RemoveBond(_, removed) =>
      if removed.None? then (s, Err(MissingUndoData))
      else
        var b := removed.value;
        var (t, r) := InsertBondWithIdSpec(s, b.id, b.a, b.b);
        if r.Err? then (t, Err(r.error)) else (t, Ok(()))
    case MoveAtom(id, from, _) =>
      var t := SetAtomPositionSpec(s, id, from);
      if t.None? then (s, Err(AtomNotFound)) else (t.value, Ok(()))
  }

  /**
   * `Command::merge_with`: a move of an atom absorbs a later move of the same atom
   * by taking over its target; nothing else merges.
   */
  function MergeWith(self: Command, other: Command): (Command, bool) {
    if self.MoveAtom? && other.MoveAtom? && self.movedId == other.movedId
    then (self.(to := other.to), true)
    else (self, false)
  }

  /** `apply` on a molecule. */
  method Apply(c: Command, m: Molecule) returns (c': Command, r: Result<(), EditError>)
    requires m.Keyed()
    modifies m
    ensures m.Keyed() && m.name == old(m.name)
    ensures (m.State(), c', r) == ApplySpec(old(m.State()), c, Captured(c'))
    ensures c.DeleteAtom? && r.Ok? ==> Enumerates(Captured(c'), Incident(old(m.bonds), c.deletedId))
  {
    match c
    case InsertAtom(element, position, atomId, orderIndex) =>
      var index := if orderIndex.Some? then orderIndex.value else |m.order|;
      if atomId.Some? {
        var _ := m.InsertAtomWithId(atomId.value, element, position, Some(index));
        c' := InsertAtom(element, position, atomId, Some(index));
      } else {
        var id := m.InsertAtom(element, position);
        c' := InsertAtom(element, position, Some(id), Some(index));
      }
      r := Ok(());
    case DeleteAtom(id, _) =>
      var removed := m.RemoveAtom(id);
      if removed.None? {
        return c, Err(AtomNotFound);
      }
      c' := DeleteAtom(id, removed);
      r := Ok(());
    case AddBond(a, b, bondId) =>
      var existing := m.BondBetween(a, b);
      if existing.Some? {
        return c, Err(BondAlreadyExists);
      }
      var added;
      if bondId.Some? {
        added := m.InsertBondWithId(bondId.value, a, b);
      } else {
        added := m.AddBond(a, b);
      }
      if added.Err? {
        return c, Err(added.error);
      }
      c' := AddBond(a, b, Some(added.value));
      r := Ok(());
    case RemoveBond(id, _) =>
      var removed := m.RemoveBond(id);
      if removed.None? {
        return c, Err(BondNotFound);
      }
      c' := RemoveBond(id, removed);
      r := Ok(());
    case MoveAtom(id, _, to) =>
      var found := m.SetAtomPosition(id, to);
      if !found {
        return c, Err(AtomNotFound);
      }
      c' := c;
      r := Ok(());
  }

  /** The re-insertion loop of an undone deletion. */
  method Reinsert(m: Molecule, bonds: seq<Bond>) returns (r: Result<(), EditError>)
    requires m.Keyed()
    modifies m
    ensures m.Keyed() && m.name == old(m.name)
    ensures (m.State(), r) == ReinsertBonds(old(m.State()), bonds)
  {
    var i := 0;
    while i < |bonds|
      invariant 0 <= i <= |bonds|
      invariant m.Keyed() && m.name == old(m.name)
      invariant ReinsertBonds(old(m.State()), bonds) == ReinsertBonds(m.State(), bonds[i..])
    {
      var bond := bonds[i];
      var added := m.InsertBondWithId(bond.id, bond.a, bond.b);
      assert bonds[i..][0] == bond && bonds[i..][1..] == bonds[i + 1..];
      if added.Err? {
        return Err(added.error);
      }
      i := i + 1;
    }
    r := Ok(());
  }

  /** `undo` on a molecule. */
  method Undo(c: Command, m: Molecule) returns (r: Result<(), EditError>)
    requires m.Keyed()
    modifies m
    ensures m.Keyed() && m.name == old(m.name)
    ensures (m.State(), r) == UndoSpec(old(m.State()), c)
  {
    match c
    case InsertAtom(_, _, atomId, _) =>
      if atomId.None? {
        return Err(CommandMissingData);
      }
      var removed := m.RemoveAtom(atomId.value);
      if removed.None? {
        return Err(AtomNotFound);
      }
      r := Ok(());
    case DeleteAtom(_, removed) =>
      if removed.None? {
        return Err(MissingUndoData);
      }
      var ra := removed.value;
      var _ := m.InsertAtomWithId(ra.atom.id, ra.atom.element, ra.atom.position, Some(ra.orderIndex));
      r := Reinsert(m, ra.bonds);
    case AddBond(_, _, bondId) =>
      if bondId.None? {
        return Err(CommandMissingData);
      }
      var removed := m.RemoveBond(bondId.value);
      if removed.None? {
        return Err(BondNotFound);
      }
      r := Ok(());
    case RemoveBond(_, removed) =>
      if removed.None? {
        return Err(MissingUndoData);
      }
      var b := removed.value;
      var added := m.InsertBondWithId(b.id, b.a, b.b);
      if added.Err? {
        return Err(added.error);
      }
      r := Ok(());
    case MoveAtom(id, from, _) =>
      var found := m.SetAtomPosition(id, from);
      if !found {
        return Err(AtomNotFound);
      }
      r := Ok(());
  }
}
