/**
 * `parse_xyz` on a `Molecule`: the loop of the source inserts each atom as soon as its line
 * has been read.  The methods are proved to build the molecule `Xyz.ParseXyzSpec` describes.
 */
module XyzReader {
  import opened Wrappers
  import opened Text
  import opened Chem
  import opened Molecules
  import opened Xyz

  /** `parse_xyz`: the loop inserts each atom as soon as its line has been read. */
  method ParseXyz(contents: string, coord: string -> Option<Coord>) returns (r: Result<Molecule, XyzError>)
    ensures ParseXyzSpec(contents, coord).Err? ==> r == Err(ParseXyzSpec(contents, coord).error)
    ensures ParseXyzSpec(contents, coord).Ok? ==>
              && r.Ok? && fresh(r.value) && r.value.Keyed()
              && r.value.name == ParseXyzSpec(contents, coord).value.0
              && r.value.State() == Populated(ParseXyzSpec(contents, coord).value.1)
  {
    var lines := Lines(contents);
    if |lines| == 0 {
      return Err(MissingAtomCount);
    }
    var count := ParseUsize(Trim(lines[0]));
    if count.None? {
      return Err(InvalidAtomCount);
    }
    if |lines| < 2 {
      return Err(MissingCommentLine);
    }
    var need := count.value;
    var name := Trim(lines[1]);
    var m := new Molecule(name);
    var data := lines[2..];
    ParseLinesHeader(lines, coord);
    r := ReadInto(m, data, need, coord);
  }

  /** The loop of `parse_xyz`: insert the atom of each data line until `need` atoms are in. */
  method ReadInto(m: Molecule, data: seq<string>, need: nat, coord: string -> Option<Coord>) returns (r: Result<Molecule, XyzError>)
    requires m.Keyed() && m.State() == EmptyState()
    modifies m
    ensures var expected := Finish(old(m.name), ReadAtoms(Tokens(data), 0, need, coord), need);
            && (expected.Err? ==> r == Err(expected.error))
            && (expected.Ok? ==> r == Ok(m) && m.Keyed() && m.name == old(m.name) && m.State() == Populated(expected.value.1))
  {
    ghost var read: seq<AtomLine> := [];
    ghost var rest := Tokens(data);
    ghost var left := need;
    ghost var expected := ReadAtoms(rest, 0, need, coord);
    assert data[0..] == data;
    PrefixedNothing(expected);
    var index := 0;
    while index < |data|
      invariant 0 <= index <= |data| && |read| == index <= need
      invariant rest == Tokens(data[index..]) && left == need - index
      invariant m.Keyed() && m.name == old(m.name) && m.State() == Populated(read) && |m.atoms| == index
      invariant expected == Prefixed(read, ReadAtoms(rest, index, left, coord))
    {
      var n := |m.atoms|;
      if n >= need {
        break;
      }
      var parsed := ParseAtomLine(data[index], index + 3, coord);
      TokensStep(data, index);
      if parsed.Err? {
        ReadFails(read, rest, index, left, coord);
        return Err(parsed.error);
      }
      var _ := m.InsertAtom(parsed.value.element, parsed.value.position);
      PopulatedSnoc(read, parsed.value);
      ghost var read', rest', left' := read + [parsed.value], rest[1..], left - 1;
      ReadStep(expected, read, rest, index, left, coord, parsed.value, read', rest', left');
      read, rest, left := read', rest', left';
      index := index + 1;
    }
    var n := |m.atoms|;
    assert index == |data| || left == 0 by {
      if index < |data| {
        assert n >= need;
      }
    }
    ReadNothing(rest, index, left, coord);
    assert read + [] == read;
    if n != need {
      return Err(CountMismatch);
    }
    r := Ok(m);
  }

  /** The loop's account of the read, one line further on. */
  lemma ReadStep(expected: Result<seq<AtomLine>, XyzError>, read: seq<AtomLine>, rest: seq<seq<string>>, index: nat,
                 left: nat, coord: string -> Option<Coord>, a: AtomLine,
                 read': seq<AtomLine>, rest': seq<seq<string>>, left': nat)
    requires expected == Prefixed(read, ReadAtoms(rest, index, left, coord))
    requires rest != [] && left != 0 && ParseFields(rest[0], index + 3, coord) == Ok(a)
    requires read' == read + [a] && rest' == rest[1..] && left' == left - 1
    ensures expected == Prefixed(read', ReadAtoms(rest', index + 1, left', coord))
  {
    PrefixedStep(read, rest, index, left, coord, a);
  }

  /** One more atom line inserts one more atom. */
  lemma PopulatedSnoc(atoms: seq<AtomLine>, a: AtomLine)
    ensures Populated(atoms + [a]) == InsertAtomSpec(Populated(atoms), a.element, a.position).0
    ensures |Populated(atoms + [a]).atoms| == |atoms| + 1
  {
    assert (atoms + [a])[..|atoms|] == atoms;
    PopulatedShape(atoms + [a]);
  }
}
