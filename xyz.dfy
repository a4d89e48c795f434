/**
 * `parse_xyz`: an XYZ file is a count line, a comment line that names the molecule, and one
 * line per atom holding an element label and three coordinates.  Reading an `f32` is left
 * to the parameter `coord`, which maps a token to the bit pattern of the number it denotes,
 * or to `None` when the token is not a number.
 */
module Xyz {
  import opened Wrappers
  import opened Text
  import opened Chem
  import opened Molecules
  import ChemProps

  /** The three coordinates of an atom line, in the order they are read. */
  datatype Axis = X | Y | Z

  /** The errors `parse_xyz` reports; `line` is the 1-based line number in the file. */
  datatype XyzError =
    | MissingAtomCount
    | InvalidAtomCount
    | MissingCommentLine
    | MissingElement(line: nat)
    | MissingCoordinate(axis: Axis, line: nat)
    | InvalidCoordinate(axis: Axis, line: nat)
    | CountMismatch

  datatype AtomLine = AtomLine(element: string, position: Position)

  /** One atom line numbered `line`, split into its whitespace-separated tokens. */
  function ParseAtomLine(text: string, line: nat, coord: string -> Option<Coord>): Result<AtomLine, XyzError> {
    ParseFields(SplitWhitespace(text), line, coord)
  }

  /**
   * The tokens of an atom line: the first is the element, the next three the x, y and z
   * coordinates, each checked for presence and then parsed before the next is looked at;
   * anything after the z coordinate is ignored.
   */
  function ParseFields(parts: seq<string>, line: nat, coord: string -> Option<Coord>): Result<AtomLine, XyzError> {
    if |parts| < 1 then Err(MissingElement(line))
    else if |parts| < 2 then Err(MissingCoordinate(X, line))
    else if coord(parts[1]).None? then Err(InvalidCoordinate(X, line))
    else if |parts| < 3 then Err(MissingCoordinate(Y, line))
    else if coord(parts[2]).None? then Err(InvalidCoordinate(Y, line))
    else if |parts| < 4 then Err(MissingCoordinate(Z, line))
    else if coord(parts[3]).None? then Err(InvalidCoordinate(Z, line))
    else Ok(AtomLine(parts[0], Position(coord(parts[1]).value, coord(parts[2]).value, coord(parts[3]).value)))
  }

  /**
   * The atom lines read from `data`, whose first line is the `index`-th data line (line
   * `index + 3` of the file), while fewer than `need` more atoms are wanted; reading stops at
   * the first line that does not parse.
   */
  function ReadAtoms(data: seq<seq<string>>, index: nat, need: nat, coord: string -> Option<Coord>): Result<seq<AtomLine>, XyzError>
    decreases |data|
  {
    if need == 0 || data == [] then Ok([])
    else
      match ParseFields(data[0], index + 3, coord)
      case Err(e) => Err(e)
      case Ok(a) =>
        match ReadAtoms(data[1..], index + 1, need - 1, coord)
        case Err(e) => Err(e)
        case Ok(rest) => Ok([a] + rest)
  }

  /** The tokens of each line. */
  function Tokens(lines: seq<string>): (r: seq<seq<string>>)
    ensures |r| == |lines|
    decreases |lines|
  {
    if lines == [] then [] else [SplitWhitespace(lines[0])] + Tokens(lines[1..])
  }

  /** `parse_xyz` on values: the molecule's name and its atom lines, or the first error. */
  function ParseXyzSpec(contents: string, coord: string -> Option<Coord>): Result<(string, seq<AtomLine>), XyzError> {
    ParseLines(Lines(contents), coord)
  }

  /** The parse of the lines of a file. */
  function ParseLines(lines: seq<string>, coord: string -> Option<Coord>): Result<(string, seq<AtomLine>), XyzError> {
    if |lines| == 0 then Err(MissingAtomCount)
    else
      var count := ParseUsize(Trim(lines[0]));
      if count.None? then Err(InvalidAtomCount)
      else if |lines| < 2 then Err(MissingCommentLine)
      else Finish(Trim(lines[1]), ReadAtoms(Tokens(lines[2..]), 0, count.value, coord), count.value)
  }

  /** The outcome once the atom lines are read: fewer atoms than the count is a mismatch. */
  function Finish(name: string, read: Result<seq<AtomLine>, XyzError>, count: nat): Result<(string, seq<AtomLine>), XyzError> {
    match read
    case Err(e) => Err(e)
    case Ok(atoms) => if |atoms| != count then Err(CountMismatch) else Ok((name, atoms))
  }

  /** A new molecule after `insert_atom` of each atom line in turn. */
  function Populated(atoms: seq<AtomLine>): MolState
    decreases |atoms|
  {
    if atoms == [] then EmptyState()
    else
      var last := atoms[|atoms| - 1];
      InsertAtomSpec(Populated(atoms[..|atoms| - 1]), last.element, last.position).0
  }

  // ---------------------------------------------------------------------------
  // Properties

  /** The molecule read from `atoms` is valid, and no atom of it is over its valence. */
  lemma {:induction false} PopulatedValid(atoms: seq<AtomLine>)
    ensures Valid(Populated(atoms)) && WithinValence(Populated(atoms))
    decreases |atoms|
  {
    if atoms == [] {
      assert WithinValence(EmptyState());
    } else {
      var last := atoms[|atoms| - 1];
      PopulatedValid(atoms[..|atoms| - 1]);
      ChemProps.InsertAtomKeepsValid(Populated(atoms[..|atoms| - 1]), last.element, last.position);
    }
  }

  /** `s` holds one unbonded atom per line of `atoms`, with ids 1, 2, ... in file order, listed in that order. */
  predicate Shaped(s: MolState, atoms: seq<AtomLine>) {
    && |s.atoms| == |atoms| && |s.order| == |atoms|
    && (forall i :: 0 <= i < |atoms| ==> s.order[i] == i + 1)
    && (forall k :: 1 <= k <= |atoms| ==>
          k in s.atoms && s.atoms[k] == Atom(k, atoms[k - 1].element, atoms[k - 1].position))
    && (forall k :: k in s.atoms ==> 1 <= k <= |atoms|)
    && s.bonds == map[] && s.nextAtomId == |atoms| + 1 && s.nextBondId == 1
  }

  /**
   * The molecule read from `atoms` holds one unbonded atom per line, with ids 1, 2, ... in
   * file order, and lists them in that order.
   */
  lemma {:induction false} PopulatedShape(atoms: seq<AtomLine>)
    ensures Shaped(Populated(atoms), atoms)
    decreases |atoms|
  {
    if atoms != [] {
      var init := atoms[..|atoms| - 1];
      var last := atoms[|atoms| - 1];
      PopulatedShape(init);
      ShapedInsert(Populated(init), init, last);
      assert init + [last] == atoms;
      assert Shaped(Populated(atoms), atoms);
    }
  }

  lemma ShapedInsert(p: MolState, init: seq<AtomLine>, last: AtomLine)
    requires Shaped(p, init)
    ensures Shaped(InsertAtomSpec(p, last.element, last.position).0, init + [last])
  {
    var atoms := init + [last];
    var n := |atoms|;
    var s := InsertAtomSpec(p, last.element, last.position).0;
    assert n !in p.atoms;
    assert s.atoms == p.atoms[n := Atom(n, last.element, last.position)] && s.order == p.order + [n];
    assert |s.atoms| == n;
    forall i | 0 <= i < n ensures s.order[i] == i + 1 {
      if i < |init| {
        assert s.order[i] == p.order[i];
      }
    }
    forall k | 1 <= k <= n
      ensures k in s.atoms && s.atoms[k] == Atom(k, atoms[k - 1].element, atoms[k - 1].position)
    {
      if k < n {
        assert atoms[k - 1] == init[k - 1];
      }
    }
  }

  /** Reading stops after `need` atoms or at the end of the data, whichever comes first. */
  lemma {:induction false} ReadAtomsLength(data: seq<seq<string>>, index: nat, need: nat, coord: string -> Option<Coord>)
    ensures var r := ReadAtoms(data, index, need, coord);
            r.Ok? ==> |r.value| == Min(need, |data|)
    decreases |data|
  {
    if need != 0 && data != [] {
      ReadAtomsLength(data[1..], index + 1, need - 1, coord);
    }
  }

  /** The atoms read are the data lines, parsed, in order. */
  lemma {:induction false} ReadAtomsParsesEach(data: seq<seq<string>>, index: nat, need: nat, coord: string -> Option<Coord>)
    ensures var r := ReadAtoms(data, index, need, coord);
            r.Ok? ==> |r.value| <= |data| &&
                      forall i :: 0 <= i < |r.value| ==> ParseFields(data[i], index + i + 3, coord) == Ok(r.value[i])
    decreases |data|
  {
    var r := ReadAtoms(data, index, need, coord);
    if need != 0 && data != [] && r.Ok? {
      ReadAtomsParsesEach(data[1..], index + 1, need - 1, coord);
      var rest := ReadAtoms(data[1..], index + 1, need - 1, coord).value;
      assert r.value == [ParseFields(data[0], index + 3, coord).value] + rest;
      forall i | 0 <= i < |r.value|
        ensures ParseFields(data[i], index + i + 3, coord) == Ok(r.value[i])
      {
        if i > 0 {
          assert r.value[i] == rest[i - 1] && data[1..][i - 1] == data[i];
          assert ParseFields(data[1..][i - 1], index + 1 + (i - 1) + 3, coord) == Ok(rest[i - 1]);
          assert index + 1 + (i - 1) + 3 == index + i + 3;
        }
      }
    } else if r.Ok? {
      assert r.value == [];
    }
  }

  /** An error names a line of the data that was read: one of lines `index + 3` onwards. */
  lemma {:induction false} ReadAtomsErrorLine(data: seq<seq<string>>, index: nat, need: nat, coord: string -> Option<Coord>)
    ensures var r := ReadAtoms(data, index, need, coord);
            r.Err? ==> && !r.error.MissingAtomCount? && !r.error.InvalidAtomCount?
                       && !r.error.MissingCommentLine? && !r.error.CountMismatch?
                       && index + 3 <= r.error.line < index + 3 + Min(need, |data|)
    decreases |data|
  {
    if need != 0 && data != [] {
      ReadAtomsErrorLine(data[1..], index + 1, need - 1, coord);
    }
  }

  /** The parse of the `i`-th of `data`, which is line `index + i + 3` of the file. */
  function LineResult(data: seq<seq<string>>, index: nat, i: nat, coord: string -> Option<Coord>): Result<AtomLine, XyzError>
    requires i < |data|
  {
    ParseFields(data[i], index + i + 3, coord)
  }

  /** The `i`-th of `data` does not parse. */
  predicate BadLine(data: seq<seq<string>>, index: nat, i: nat, coord: string -> Option<Coord>)
    requires i < |data|
  {
    LineResult(data, index, i, coord).Err?
  }

  /** The lines of `data[1..]` are those of `data` shifted by one. */
  lemma BadLineShift(data: seq<seq<string>>, index: nat, i: nat, coord: string -> Option<Coord>)
    requires i + 1 < |data|
    ensures LineResult(data[1..], index + 1, i, coord) == LineResult(data, index, i + 1, coord)
    ensures BadLine(data[1..], index + 1, i, coord) == BadLine(data, index, i + 1, coord)
  {
    assert data[1..][i] == data[i + 1];
  }

  /** Reading fails exactly when one of the wanted lines does not parse. */
  lemma {:induction false} ReadAtomsFails(data: seq<seq<string>>, index: nat, need: nat, coord: string -> Option<Coord>)
    ensures ReadAtoms(data, index, need, coord).Err? <==> exists i :: 0 <= i < Min(need, |data|) && BadLine(data, index, i, coord)
    decreases |data|
  {
    if need != 0 && data != [] && !BadLine(data, index, 0, coord) {
      ReadAtomsFails(data[1..], index + 1, need - 1, coord);
      if ReadAtoms(data, index, need, coord).Err? {
        var i :| 0 <= i < Min(need - 1, |data| - 1) && BadLine(data[1..], index + 1, i, coord);
        BadLineShift(data, index, i, coord);
      } else {
        forall i | 0 <= i < Min(need, |data|) ensures !BadLine(data, index, i, coord) {
          if i > 0 {
            BadLineShift(data, index, i - 1, coord);
          }
        }
      }
    }
  }

  /**
   * A failed read reports the error of the first wanted line that does not parse: the line
   * `i` whose `LineResult` is that error, with every wanted line before it parsed.
   */
  lemma {:induction false} ReadAtomsFirstError(data: seq<seq<string>>, index: nat, need: nat, coord: string -> Option<Coord>)
    ensures var r := ReadAtoms(data, index, need, coord);
            r.Err? ==> exists i :: && 0 <= i < Min(need, |data|)
                                   && LineResult(data, index, i, coord) == Err(r.error)
                                   && forall j :: 0 <= j < i ==> !BadLine(data, index, j, coord)
    decreases |data|
  {
    var r := ReadAtoms(data, index, need, coord);
    if need != 0 && data != [] && r.Err? {
      if BadLine(data, index, 0, coord) {
        assert LineResult(data, index, 0, coord) == Err(r.error);
      } else {
        var tail, next := data[1..], index + 1;
        ReadAtomsFirstError(tail, next, need - 1, coord);
        assert ReadAtoms(tail, next, need - 1, coord) == r;
        var i :| && 0 <= i < Min(need - 1, |tail|)
                 && LineResult(tail, next, i, coord) == Err(r.error)
                 && forall j :: 0 <= j < i ==> !BadLine(tail, next, j, coord);
        BadLineShift(data, index, i, coord);
        forall j | 0 <= j < i + 1 ensures !BadLine(data, index, j, coord) {
          if j > 0 {
            BadLineShift(data, index, j - 1, coord);
          }
        }
        assert LineResult(data, index, i + 1, coord) == Err(r.error);
      }
    }
  }

  /**
   * A file whose first atom line has an element and an `x` token that does not parse as a
   * coordinate is rejected with "invalid x" naming line 3.
   */
  lemma BadFirstXRejected(contents: string, coord: string -> Option<Coord>)
    requires var lines := Lines(contents);
             && |lines| >= 3 && ParseUsize(Trim(lines[0])).Some? && ParseUsize(Trim(lines[0])).value >= 1
             && |SplitWhitespace(lines[2])| >= 2 && coord(SplitWhitespace(lines[2])[1]).None?
    ensures ParseXyzSpec(contents, coord) == Err(InvalidCoordinate(X, 3))
  {
    var lines := Lines(contents);
    TokensStep(lines[2..], 0);
    assert lines[2..][0] == lines[2];
  }

  /** Lines after the last atom wanted are never looked at, however malformed. */
  lemma {:induction false} ReadAtomsIgnoresExtra(data: seq<seq<string>>, extra: seq<seq<string>>, index: nat, need: nat,
                                                  coord: string -> Option<Coord>)
    requires need <= |data|
    ensures ReadAtoms(data + extra, index, need, coord) == ReadAtoms(data, index, need, coord)
    decreases |data|
  {
    if need != 0 {
      assert (data + extra)[0] == data[0];
      assert (data + extra)[1..] == data[1..] + extra;
      ReadAtomsIgnoresExtra(data[1..], extra, index + 1, need - 1, coord);
    }
  }

  /**
   * When the count line asks for more atoms than there are data lines, and every data line
   * parses, the file is rejected with a count mismatch.
   */
  lemma ShortFileMismatch(contents: string, coord: string -> Option<Coord>)
    requires var lines := Lines(contents);
             && |lines| >= 2 && ParseUsize(Trim(lines[0])).Some?
             && ParseUsize(Trim(lines[0])).value > |lines| - 2
             && ReadAtoms(Tokens(lines[2..]), 0, ParseUsize(Trim(lines[0])).value, coord).Ok?
    ensures ParseXyzSpec(contents, coord) == Err(CountMismatch)
  {
    var lines := Lines(contents);
    ReadAtomsLength(Tokens(lines[2..]), 0, ParseUsize(Trim(lines[0])).value, coord);
  }

  /** A successful parse gives exactly as many atoms as the count line says. */
  lemma ParsedCount(contents: string, coord: string -> Option<Coord>)
    ensures var r := ParseXyzSpec(contents, coord);
            r.Ok? ==> var lines := Lines(contents);
                      && |r.value.1| == ParseUsize(Trim(lines[0])).value
                      && |lines| - 2 >= |r.value.1|
                      && r.value.0 == Trim(lines[1])
  {
    var r := ParseXyzSpec(contents, coord);
    if r.Ok? {
      var lines := Lines(contents);
      ReadAtomsLength(Tokens(lines[2..]), 0, ParseUsize(Trim(lines[0])).value, coord);
    }
  }

  lemma ParseLinesHeader(lines: seq<string>, coord: string -> Option<Coord>)
    requires |lines| >= 2 && ParseUsize(Trim(lines[0])).Some?
    ensures ParseLines(lines, coord)
            == Finish(Trim(lines[1]), ReadAtoms(Tokens(lines[2..]), 0, ParseUsize(Trim(lines[0])).value, coord),
                      ParseUsize(Trim(lines[0])).value)
  {
  }

  lemma TokensStep(data: seq<string>, index: nat)
    requires index < |data|
    ensures Tokens(data[index..]) == [SplitWhitespace(data[index])] + Tokens(data[index + 1..])
  {
    assert data[index..][1..] == data[index + 1..];
  }

  lemma PrefixedNothing(r: Result<seq<AtomLine>, XyzError>)
    ensures Prefixed([], r) == r
  {
    if r.Ok? {
      assert [] + r.value == r.value;
    }
  }

  lemma ReadNothing(data: seq<seq<string>>, index: nat, need: nat, coord: string -> Option<Coord>)
    requires data == [] || need == 0
    ensures ReadAtoms(data, index, need, coord) == Ok([])
  {
  }

  lemma ReadFails(read: seq<AtomLine>, data: seq<seq<string>>, index: nat, need: nat, coord: string -> Option<Coord>)
    requires data != [] && need != 0 && ParseFields(data[0], index + 3, coord).Err?
    ensures Prefixed(read, ReadAtoms(data, index, need, coord)) == Err(ParseFields(data[0], index + 3, coord).error)
  {
  }

  /** `read` in front of the outcome of reading the rest. */
  function Prefixed(read: seq<AtomLine>, r: Result<seq<AtomLine>, XyzError>): Result<seq<AtomLine>, XyzError> {
    match r
    case Err(e) => Err(e)
    case Ok(rest) => Ok(read + rest)
  }

  lemma PrefixedStep(read: seq<AtomLine>, data: seq<seq<string>>, index: nat, need: nat,
                     coord: string -> Option<Coord>, a: AtomLine)
    requires data != [] && need != 0 && ParseFields(data[0], index + 3, coord) == Ok(a)
    ensures Prefixed(read, ReadAtoms(data, index, need, coord))
            == Prefixed(read + [a], ReadAtoms(data[1..], index + 1, need - 1, coord))
  {
    match ReadAtoms(data[1..], index + 1, need - 1, coord)
    case Err(e) =>
    case Ok(rest) =>
      assert read + ([a] + rest) == read + [a] + rest;
  }
}
