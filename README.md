# MolWeaver document core in Dafny

This project models MolWeaver's molecule document and its edit engine, as found in `src/lib.rs`:

- the mutable `Molecule`, which holds:
  - an atom map;
  - an explicit display order of atom ids;
  - a bond map;
  - an incrementally kept bond count per atom (its "valence");
  - two id allocators;
- the five undoable `Command`s, with `apply`, `undo` and `merge_with`;
- the bounded `CommandHistory`;
- the valence table `max_valence`;
- the XYZ reader `parse_xyz`.

## Layout

- `chem.dfy` (module `Chem`): the document as a value (`MolState`). Every mutation primitive is a function from the old state to the new one: `InsertAtomSpec`, `AddBondSpec`, `RemoveAtomState`, and so on. The module also holds:
  - the invariants the core is meant to keep, gathered in `Valid`: map keys match the stored ids; the allocators lie above every id in use; bond ends exist; at most one bond per unordered pair; counts equal bond ends; the order is a duplicate-free listing of the atoms;
  - the separate valence bound `WithinValence`.
- `chem_props.dfy` (module `ChemProps`): what each primitive promises. This covers outcomes, error cases, preserved invariants and the exact change of counts.
- `molecule.dfy` (module `Molecules`): `class Molecule`, with the Rust struct's fields. Each method is proved to move `State()` exactly as its `Chem` function says. The loops of `remove_atom`, `bond_between` and `bonds` are `while` loops over the bond map's keys.
- `commands.dfy` (module `Commands`):
  - the `Command` datatype;
  - `ApplySpec` and `UndoSpec` on values;
  - the methods `Apply`, `Undo` and `Reinsert` on a `Molecule`, proved against them.
- `command_props.dfy` (module `CommandProps`): round trips, redo, error cases, preserved invariants and merging.
- `history.dfy` (module `History`): `class CommandHistory`, with `undo`, `redo` and `capacity` fields. `execute`, `undo` and `redo` are proved to move the stacks as `Record`, `ApplySpec` and `UndoSpec` say. `can_undo` and `can_redo` are the predicates `CanUndo` and `CanRedo`.
- `xyz.dfy` (module `Xyz`) and `xyz_reader.dfy` (module `XyzReader`): `parse_xyz`.
  - `ParseXyzSpec` describes the outcome on values.
  - `XyzReader.ParseXyz` and its loop `ReadInto` build a `Molecule` and are proved to produce what `ParseXyzSpec` describes.
- `text.dfy` (module `Text`): the parts of Rust's string library that the core relies on: `trim`, `to_ascii_uppercase`, `lines`, `split_whitespace`, and `usize` parsing on a 64-bit target.
- `wrappers.dfy`: `Option`, `Result`, `Min`, `Max`.

## Modelling choices

- **Iteration order.** The order in which Rust's `HashMap` yields bonds is unspecified. The methods pick keys with `:|`, and the bonds a deletion captures are an arbitrary listing of the incident bonds. `Enumerates(listing, Incident(bonds, id))` states that the listing names each incident bond exactly once. `ApplySpec` takes the listing as a parameter; nothing other than the order of the captured bonds depends on it.
- **Positions.** A position is three `bv32` bit patterns. The core only copies and compares them.
- **The write-back of `apply`.** In the source, `apply` writes the resolved id, order index or capture back into the command. Here `Apply` returns the updated command, and `CommandHistory` stores that.
- **Behaviour that looks unintended.** Behaviour that looks unintended is modelled as written, and lemmas exhibit it:
  - `add_bond(a, a)` passes the valence check and counts the same atom twice (src/lib.rs:156-163; `ChemProps.SelfBondExceedsValence`);
  - `insert_bond_with_id` advances the allocator before its duplicate and valence checks (src/lib.rs:173-179; `ChemProps.InsertBondWithIdOutcome`);
  - `insert_atom_with_id` does not guard an id already present (src/lib.rs:99-111; `ChemProps.InsertAtomWithIdDuplicatesOrder`);
  - a failed bond re-insertion leaves the undo of a deletion half done (src/lib.rs:351-359; `CommandProps.UndoDeleteKeepsAtomOnFailure`);
  - a failed `undo` or `redo` drops the popped entry (src/lib.rs:441-457; `History.CommandHistory.Undo`, `History.CommandHistory.Redo`);
  - once a self-bond has pushed a count over its maximum, undoing the removal of another bond at that atom fails at the valence check (src/lib.rs:212-226, 371-377; `CommandProps.RemoveBondUndoFailsOverValence`).
- **Counts can exceed the maximum.** `add_bond(a, a)` checks the count once per end before raising it twice (src/lib.rs:156-163), so a self-bond can push a count past its element's maximum. `ChemProps.SelfBondExceedsValence` shows this. The lemmas that preserve `WithinValence` exclude self-bonds explicitly, and the undo round trips assume `WithinValence` (see "## Left out").

## Model

| member | source | states |
|---|---|---|
| Chem.MaxValence | src/lib.rs:573-584 | the valence of an element label, looked up after trimming and ASCII upper-casing it, lies between 1 and 6; `Chem.MaxValenceIgnoresCaseAndPadding` proves that case and padding do not change it |
| Chem.ValenceOfLabel | src/lib.rs:575-583 | the valence table gives every label a bound between 1 and 6 |
| Chem.MaxValenceIgnoresCaseAndPadding | src/lib.rs:573-584 | the valence lookup is unchanged by ASCII upper-casing or trimming the label |
| Text.NormalizedIdempotent | src/lib.rs:574 | trim-then-upper-case normalisation of an element label is idempotent |
| Text.FirstIndex | src/lib.rs:118-122 | the index is the first occurrence of the element (an id in the order, a line ending in the text), or the length when there is none |
| Molecules.Molecule.constructor | src/lib.rs:50-60 | a new molecule has the given name, no atoms or bonds, both allocators at 1, and satisfies `Valid` and `WithinValence` |
| Molecules.Molecule.AtomCount | src/lib.rs:62-64 | the count is the number of atoms, and in a valid molecule also the length of the order |
| Molecules.Molecule.AtomsInOrder | src/lib.rs:66-68 | returns the atoms named by the order, skipping ids without an atom; in a valid molecule, one atom per order entry, in order |
| Molecules.Molecule.AtomIds | src/lib.rs:70-72 | returns the order itself; in a valid molecule it lists exactly the atom ids |
| Molecules.Molecule.GetAtom | src/lib.rs:74-76 | `Some` exactly when the id names an atom, holding that atom |
| Molecules.Molecule.InsertAtom | src/lib.rs:78-90 | the new state and returned id are those of `InsertAtomSpec`: the next id, appended to the order with count 0, allocator advanced |
| Molecules.Molecule.InsertAtomWithId | src/lib.rs:92-114 | the new state is `InsertAtomWithIdSpec`: allocator raised past the id, id placed at `min(index, len)` or at the tail, count kept or set to 0 |
| Molecules.Molecule.IndexInOrder | src/lib.rs:117-122 | the loop finds `FirstIndex` of the id in the order |
| Molecules.Molecule.IncidentBonds | src/lib.rs:126-131 | the collected bonds are exactly the bonds touching the atom, each once |
| Molecules.Molecule.RemoveAtom | src/lib.rs:116-143 | `None` exactly for an unknown id; otherwise the state becomes `RemoveAtomState`, and the capture holds the atom, its first index in the order and every incident bond once |
| Molecules.Molecule.DetachAll | src/lib.rs:132-136 | removing each captured bond lowers the counts by the removed bond ends and leaves atoms, order and allocators alone |
| Molecules.Molecule.Detach | src/lib.rs:133-135 | one captured bond leaves the bond map and lowers the counts of both its ends; atoms, order, name and allocators stay |
| Molecules.Molecule.SetAtomPosition | src/lib.rs:145-149 | reports whether the atom exists; if it does, only its position changes, and otherwise nothing changes |
| Molecules.Molecule.EnsureAtomsExist | src/lib.rs:205-210 | no error exactly when both atoms exist; the error is "atom does not exist" |
| Molecules.Molecule.EnsureValenceAvailable | src/lib.rs:212-226 | a missing atom is an error; otherwise no error exactly when one more bond fits the element's valence, and the error names the element and its maximum |
| Molecules.Molecule.IncrementValence | src/lib.rs:228-231 | the count of the atom rises by one, starting from 0 when missing; nothing else changes |
| Molecules.Molecule.DecrementValence | src/lib.rs:233-237 | the count of the atom falls by one, saturating at 0, and a missing entry stays missing; nothing else changes |
| Molecules.Molecule.AddBond | src/lib.rs:151-165 | the new state and result are `AddBondSpec`: the checks in source order, then the next bond id with both counts raised |
| Molecules.Molecule.InsertBondWithId | src/lib.rs:167-185 | the new state and result are `InsertBondWithIdSpec`, including the allocator advanced before the duplicate and valence checks |
| Molecules.Molecule.Attach | src/lib.rs:160-163 | the bond is stored under its id and both endpoint counts rise |
| Molecules.Molecule.RemoveBond | src/lib.rs:187-192 | the new state and result are `RemoveBondSpec`: `None` for an unknown id, otherwise the bond is removed and both ends are lowered |
| Molecules.Molecule.BondBetween | src/lib.rs:194-199 | `Some` exactly when a bond joins the two atoms in either orientation, naming such a bond |
| Molecules.Molecule.Bonds | src/lib.rs:201-203 | the listing names every bond exactly once |
| ChemProps.OrderListsEveryAtom | src/lib.rs:62-72 | when the order lists each atom key exactly once (part of the invariant), it has one entry per atom, and walking it yields each atom under its own id |
| ChemProps.InsertAtomKeepsValid | src/lib.rs:78-90 | `insert_atom` returns the old allocator value, which was unused, appends it, gives it count 0, and keeps `Valid` and `WithinValence` |
| ChemProps.InsertAtomWithIdKeepsValid | src/lib.rs:92-114 | with a fresh id, the allocator becomes `max(next, id + 1)`, the atom is stored with count 0, and `Valid` and `WithinValence` are kept |
| ChemProps.InsertAtomWithIdDuplicatesOrder | src/lib.rs:99-111 | as written: with an id already present, the atom is overwritten and the id appears twice in the order, breaking `Valid` |
| ChemProps.PlaceInOrderShape | src/lib.rs:106-111 | the id lands at `min(index, len)`, or at the tail without an index, with everything else kept in order |
| ChemProps.RemoveAtomKeepsValid | src/lib.rs:116-143 | removing an atom removes exactly the bonds touching it, lowers every other count by one per shared bond, keeps the allocators, and keeps `Valid` and `WithinValence` |
| ChemProps.RemoveAtomDrains | src/lib.rs:132-136 | each remaining count falls by the number of removed bond ends at that atom, saturating at 0 |
| ChemProps.AddBondOutcome | src/lib.rs:151-165 | `add_bond` succeeds exactly when both atoms exist, they are not yet bonded, and both have room; a failure changes nothing; success returns the old allocator value and advances it |
| ChemProps.AddBondKeepsValid | src/lib.rs:151-165 | a successful `add_bond` adds one fresh bond, raises each end's count by its number of ends, keeps `Valid`, and keeps `WithinValence` unless it is a self-bond |
| ChemProps.AddBondRejectsDuplicate | src/lib.rs:153-155 | after a successful `add_bond`, bonding the same pair again in either orientation fails with "bond already exists" and changes nothing |
| ChemProps.AddBondAtCapacityFails | src/lib.rs:212-226 | an atom at its element's maximum rejects one more bond with the valence error for its element and maximum, and nothing changes |
| ChemProps.SelfBondExceedsValence | src/lib.rs:151-165 | as written: a self-bond on an atom one short of its maximum succeeds and leaves it one over, breaking `WithinValence` |
| ChemProps.SelfBondOnHydrogen | src/lib.rs:151-165 | as written: a hydrogen bonded to itself gets count 2 against a maximum of 1 |
| ChemProps.InsertBondWithIdOutcome | src/lib.rs:167-185 | success exactly under the `add_bond` conditions, returning the given id; a missing atom is reported before anything changes; once both atoms exist the allocator becomes `max(next, id + 1)` even on failure, and nothing else changes on failure |
| ChemProps.InsertBondWithIdKeepsValid | src/lib.rs:167-185 | with a fresh id, success adds that bond, raises the end counts, keeps `Valid`, and keeps `WithinValence` unless it is a self-bond |
| ChemProps.RemoveBondKeepsValid | src/lib.rs:187-192 | removing a bond returns it, deletes only it, lowers its ends' counts, and keeps `Valid` and `WithinValence` |
| ChemProps.SetAtomPositionKeepsValid | src/lib.rs:145-149 | `Some` exactly for an existing atom; the atom's new position is the given one, and both invariants are kept |
| Commands.Apply | src/lib.rs:276-334 | the new state, updated command and outcome are `ApplySpec`; a successful deletion captures every incident bond once |
| Commands.Reinsert | src/lib.rs:357-359 | re-inserting the captured bonds one by one, stopping at the first failure, moves the state as `ReinsertBonds` says |
| Commands.Undo | src/lib.rs:336-386 | the new state and outcome are `UndoSpec` |
| CommandProps.ApplyOutcome | src/lib.rs:276-334 | for each variant, when `apply` succeeds and which error it reports: insertion never fails; deletion, bond removal and move fail exactly on an unknown id; bonding fails exactly when a check fails |
| CommandProps.ApplyFailureLeavesState | src/lib.rs:276-334 | a failed `apply` leaves the command as it was and the document unchanged; a bond addition that fails on a missing atom or an existing bond leaves the whole state unchanged; only a supplied-id addition whose atoms exist and are unbonded may have raised the bond allocator to `max(next, id + 1)` |
| CommandProps.ApplyRecordsUndoData | src/lib.rs:276-334 | a successful `apply` records the id it used, the resolved order index, the deleted atom with its order index and captured bonds, or the removed bond, and the document shows the effect |
| CommandProps.AppliedHasUndoData | src/lib.rs:336-386 | a command that `apply` has performed never fails to undo for missing data |
| CommandProps.UndoNeedsData | src/lib.rs:336-386 | undo without a recorded id fails with "command missing data", and without a capture fails with "missing undo data"; both leave the document alone |
| CommandProps.ReinsertErrors | src/lib.rs:357-359 | a failing re-insertion reports only a missing atom, an existing bond or a valence error |
| CommandProps.ReinsertKeepsAtoms | src/lib.rs:357-359 | re-inserting bonds never touches atoms, order or the atom allocator, even when it fails part way |
| CommandProps.UndoDeleteKeepsAtomOnFailure | src/lib.rs:351-359 | as written: the undo of a deletion has put the atom back even when a bond re-insertion then fails |
| CommandProps.ApplyKeepsValid | src/lib.rs:276-334 | applying a command with fresh supplied ids keeps `Valid`, and `WithinValence` unless it is a self-bond |
| CommandProps.DeleteRoundTrip | src/lib.rs:296-302 | undoing a successful deletion restores the very state: atom, order position, bonds and counts |
| CommandProps.InsertRoundTrip | src/lib.rs:277-295 | undoing an insertion gives back the state with only the atom allocator advanced |
| CommandProps.AddBondRoundTrip | src/lib.rs:303-320 | undoing a successful bond insertion gives back the state with only the bond allocator advanced |
| CommandProps.RemoveBondRoundTrip | src/lib.rs:321-327 | undoing a bond removal restores the very state |
| CommandProps.RemoveBondUndoFailsOverValence | src/lib.rs:371-377 | in a valid state whose atom `a` is past its maximum (a state a self-bond reaches), removing an ordinary bond from `a` succeeds, but its undo fails with the valence error for `a`'s element and the bond stays removed |
| CommandProps.MoveRoundTrip | src/lib.rs:328-333 | undoing a move sets the recorded source position, which is the original state when the atom stood there |
| CommandProps.UndoReverts | src/lib.rs:276-386 | for every variant, undo after a successful apply succeeds and restores atoms, order, bonds and counts; the allocators never go back; deletions, bond removals and moves restore the very state |
| CommandProps.InsertAtomNeverLowers | src/lib.rs:277-295 | applying an insertion never lowers the atom allocator |
| CommandProps.AddBondNeverLowers | src/lib.rs:303-320 | applying a bond command never lowers the bond allocator |
| CommandProps.RedoReproduces | src/lib.rs:276-386 | applying the recorded command again after its undo reproduces the state of the first apply, with the same ids |
| CommandProps.InsertRedoMovesAtom | src/lib.rs:283-291 | as written: a fresh insertion with an order index is appended at the tail, but its redo goes to the recorded index, so the two orders differ |
| Commands.MergeWith | src/lib.rs:388-403 | `merge_with` on values: the merged command and whether the merge happened; `CommandProps.MergeWithOutcome` states when it merges and what it gives |
| CommandProps.MergeWithOutcome | src/lib.rs:388-403 | merging succeeds exactly for two moves of the same atom, and then takes the later target while keeping the earlier source; otherwise the command is unchanged |
| CommandProps.MergedMoveActsAsBoth | src/lib.rs:388-403 | the merged move has the effect of the two moves in turn, and undoing it equals undoing both |
| History.CommandHistory.constructor | src/lib.rs:414-420 | both stacks start empty and the capacity is raised to at least 1 |
| History.CommandHistory.Execute | src/lib.rs:422-439 | a failed apply leaves both stacks as they were; success clears redo, records the command as `Record` says, and returns the possibly merged command; the bound `|undo| + |redo| <= capacity` is kept |
| History.CommandHistory.Undo | src/lib.rs:441-448 | `Ok(None)` and nothing changes with an empty stack; otherwise the newest entry is popped and undone; success pushes it onto redo, and failure drops it |
| History.CommandHistory.CanUndo | src/lib.rs:459-461 | true exactly when the undo stack is non-empty; `Execute` ensures that a success leaves it true |
| History.CommandHistory.CanRedo | src/lib.rs:463-465 | true exactly when the redo stack is non-empty; `Execute` ensures that a success leaves it false |
| History.CommandHistory.Redo | src/lib.rs:450-457 | `Ok(None)` with an empty redo stack; otherwise the newest entry is popped and applied; success pushes the performed command onto undo, and failure drops it |
| History.RecordKeepsBound | src/lib.rs:427-437 | after recording, the undo stack holds between 1 and `capacity` entries and ends with the returned command |
| History.RecordPushes | src/lib.rs:433-436 | without a merge, the stack keeps the newest `capacity` entries of the old stack plus the new command |
| History.RecordCoalescesMoves | src/lib.rs:427-431 | a move of the atom the newest entry moved replaces that entry by one move from its source to the new target; the stack keeps its length |
| History.RecordAllKeepsNewest | src/lib.rs:422-439 | after any run of commands in which none merges with the entry just before it (`NoMergeRun`), the undo stack holds the newest `capacity` of all entries, in order, so the oldest are unrecoverable |
| Xyz.ReadAtomsLength | src/lib.rs:505-508 | reading stops after `count` atoms or at the end of the data, whichever comes first |
| Xyz.ReadAtomsParsesEach | src/lib.rs:509-529 | the atoms read are the data lines parsed in file order, each line numbered `index + 3` |
| Xyz.ReadAtomsErrorLine | src/lib.rs:509-528 | a data-line error names a line number between 3 and the last line read |
| Xyz.ReadAtomsFails | src/lib.rs:509-528 | reading the atom lines fails exactly when one of the wanted lines does not parse |
| Xyz.ReadAtomsFirstError | src/lib.rs:509-528 | a failed read reports the error of the first wanted line that does not parse, and every wanted line before it parsed |
| Xyz.BadFirstXRejected | src/lib.rs:509-518 | a file that asks for at least one atom, and whose first atom line has an element and an `x` token the coordinate parse rejects, is rejected with "invalid x" naming line 3 |
| Xyz.ReadAtomsIgnoresExtra | src/lib.rs:505-508 | lines after the last wanted atom are never looked at, however malformed |
| Xyz.ShortFileMismatch | src/lib.rs:532-534 | when the count exceeds the data lines and every line parses, the result is "atom count does not match data lines" |
| Xyz.ParsedCount | src/lib.rs:489-537 | a successful parse holds exactly the declared number of atoms, no more than the data lines, and is named by the trimmed comment line |
| Xyz.PopulatedValid | src/lib.rs:529 | the molecule built by inserting the atom lines is valid and within valence |
| Xyz.PopulatedShape | src/lib.rs:529 | inserting the atom lines gives ids 1, 2, ... in file order, each atom with its element and position, in that order, with no bonds |
| XyzReader.ParseXyz | src/lib.rs:489-537 | each header error is reported as in the source; otherwise the result is a fresh molecule named by the trimmed comment line whose state is the atoms of `ParseXyzSpec`, inserted in order, or that parse's error |
| XyzReader.ReadInto | src/lib.rs:504-536 | the loop inserts each parsed line's atom until `count` atoms are in, stops at the first bad line with its error, and ends with the count check |

## Left out

- `element_color` and `bond_instance_from_positions` are floating-point colour and geometry arithmetic.
- The `f32` parse of a coordinate is the parameter `coord`, an arbitrary partial function from a token to a bit pattern.
- `u64` overflow of `id + 1` in the allocators is not modelled, because ids are unbounded naturals. A `usize` count is bounded by 2^64 as on a 64-bit target.
- The text of error messages is modelled by `EditError` and `XyzError` constructors. The line numbers and the axis are kept.
- `AtomId::value`, `BondId::value` and the `Display` implementation of `XyzError` are trivial accessors and are not modelled.
- The application binary, its rendering, the background loading thread and its channel are not part of this model.
- Updating a command in place is modelled by returning the updated command from `Commands.Apply`.
- HashMap iteration order is not modelled: the order of captured bonds and of `bonds()` is an arbitrary listing. A redo of a deletion may capture its bonds in a different order from the first apply.
- `Xyz.ParseXyzSpec` splits every data line into tokens, including lines after the last wanted atom. The loop, like the source, splits only the lines it reads. Splitting has no effect, so the two agree.
- CommandProps.UndoReverts requires that a move's recorded source is where the atom stood. It also requires that supplied ids are fresh (`Applicable`). The source checks neither; callers provide them.
- CommandProps.ApplyKeepsValid requires supplied ids to be fresh. `ChemProps.InsertAtomWithIdDuplicatesOrder` shows what happens otherwise.
- CommandProps.DeleteRoundTrip, CommandProps.RemoveBondRoundTrip, CommandProps.UndoReverts and CommandProps.RedoReproduces (with their helpers `RedoDelete` and `RedoRemoveBond`) require `WithinValence`. Undo can fail once a self-bond has pushed a count over its maximum, because re-inserting a bond meets the valence check; `CommandProps.RemoveBondUndoFailsOverValence` shows it.
- CommandProps.RedoReproduces excludes a fresh insertion with an order index inside the order. `CommandProps.InsertRedoMovesAtom` shows that the redo then places the atom elsewhere.
- CommandProps.MergedMoveActsAsBoth states the effect of merged moves on the document, not on the history.
- The source's unit tests on literal XYZ texts are covered by general lemmas, not by lemmas about those texts: `Xyz.ShortFileMismatch` for the count mismatch, `Xyz.BadFirstXRejected` for the invalid `x` coordinate (given that `coord` rejects the token), `Xyz.ParsedCount` for a successful parse.
