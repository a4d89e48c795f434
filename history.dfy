/**
 * `CommandHistory`: a bounded undo stack and a redo stack of commands.  `Record` says
 * where a command that was just applied goes on the undo stack; the class methods are
 * proved to move the stacks and the molecule as `Record`, `ApplySpec` and `UndoSpec` say,
 * and to keep the bound `|undo| + |redo| <= capacity`.
 */
module History {
  import opened Wrappers
  import opened Chem
  import opened Molecules
  import opened Commands
  import CommandProps

  /** The newest `capacity` entries of `entries`. */
  function Newest(entries: seq<Command>, capacity: nat): (r: seq<Command>)
    ensures |r| == Min(|entries|, capacity)
    ensures r == entries[|entries| - |r|..]
  {
    if |entries| <= capacity then entries else entries[|entries| - capacity..]
  }

  /**
   * The undo stack after `execute` applied `applied`, and the command `execute` returns:
   * the last entry absorbs a coalescing command and is returned; otherwise the command is
   * pushed and, when that makes the stack longer than the capacity, the oldest entry goes.
   */
  function Record(undo: seq<Command>, capacity: nat, applied: Command): (seq<Command>, Command) {
    if undo != [] && MergeWith(undo[|undo| - 1], applied).1 then
      var merged := MergeWith(undo[|undo| - 1], applied).0;
      (undo[..|undo| - 1] + [merged], merged)
    else
      var pushed := undo + [applied];
      (if |pushed| > capacity then pushed[1..] else pushed, applied)
  }

  class CommandHistory {
    var undo: seq<Command>
    var redo: seq<Command>
    var capacity: nat

    /** Together the two stacks never hold more than the capacity, which is at least 1. */
    predicate Valid()
      reads this
    {
      capacity >= 1 && |undo| + |redo| <= capacity
    }

    /** `CommandHistory::new`: a capacity of 0 is raised to 1. */
    constructor (capacity: nat)
      ensures undo == [] && redo == [] && this.capacity == Max(capacity, 1)
      ensures Valid()
    {
      undo := [];
      redo := [];
      this.capacity := Max(capacity, 1);
    }

    predicate CanUndo()
      reads this
    {
      undo != []
    }

    predicate CanRedo()
      reads this
    {
      redo != []
    }

    /**
     * `execute`: apply the command; on failure the stacks stay as they were (the molecule keeps
     * whatever the failed `apply` did to it).  On success the redo stack is cleared and the
     * performed command is recorded as `Record` says.  `applied` is the performed command.
     */
    method Execute(command: Command, m: Molecule) returns (r: Result<Command, EditError>, ghost applied: Command)
      requires Valid() && m.Keyed()
      modifies this, m
      ensures Valid() && m.Keyed() && m.name == old(m.name) && capacity == old(capacity)
      ensures var (t, c', res) := ApplySpec(old(m.State()), command, Captured(applied));
              && m.State() == t && applied == c'
              && (res.Err? ==> r == Err(res.error) && undo == old(undo) && redo == old(redo))
              && (res.Ok? ==> redo == [] && r.Ok? && (undo, r.value) == Record(old(undo), capacity, applied))
      ensures r.Ok? ==> CanUndo() && !CanRedo()
    {
      var c', res := Apply(command, m);
      applied := c';
      if res.Err? {
        return Err(res.error), applied;
      }
      redo := [];
      if undo != [] {
        var last := undo[|undo| - 1];
        var (merged, did) := MergeWith(last, c');
        if did {
          undo := undo[..|undo| - 1] + [merged];
          return Ok(merged), applied;
        }
      }
      undo := undo + [c'];
      if |undo| > capacity {
        undo := undo[1..];
      }
      r := Ok(c');
    }

    /**
     * `undo`: pop the newest entry and undo it.  On success it moves to the redo stack; on
     * failure it is dropped.  With nothing to undo, nothing changes.
     */
    method Undo(m: Molecule) returns (r: Result<Option<Command>, EditError>)
      requires Valid() && m.Keyed()
      modifies this, m
      ensures Valid() && m.Keyed() && m.name == old(m.name) && capacity == old(capacity)
      ensures old(undo) == [] ==> r == Ok(None) && undo == [] && redo == old(redo) && m.State() == old(m.State())
      ensures old(undo) != [] ==>
                var c := old(undo)[|old(undo)| - 1];
                var (t, res) := UndoSpec(old(m.State()), c);
                && m.State() == t
                && undo == old(undo)[..|old(undo)| - 1]
                && (res.Err? ==> r == Err(res.error) && redo == old(redo))
                && (res.Ok? ==> r == Ok(Some(c)) && redo == old(redo) + [c])
    {
      if undo == [] {
        return Ok(None);
      }
      var c := undo[|undo| - 1];
      undo := undo[..|undo| - 1];
      var res := Commands.Undo(c, m);
      if res.Err? {
        return Err(res.error);
      }
      redo := redo + [c];
      r := Ok(Some(c));
    }

    /**
     * `redo`: pop the newest undone entry and apply it again.  On success the performed command
     * goes back on the undo stack, with no capacity check; on failure it is dropped.
     */
    method Redo(m: Molecule) returns (r: Result<Option<Command>, EditError>, ghost applied: Command)
      requires Valid() && m.Keyed()
      modifies this, m
      ensures Valid() && m.Keyed() && m.name == old(m.name) && capacity == old(capacity)
      ensures old(redo) == [] ==> r == Ok(None) && redo == [] && undo == old(undo) && m.State() == old(m.State())
      ensures old(redo) != [] ==>
                var c := old(redo)[|old(redo)| - 1];
                var (t, c', res) := ApplySpec(old(m.State()), c, Captured(applied));
                && m.State() == t && applied == c'
                && redo == old(redo)[..|old(redo)| - 1]
                && (res.Err? ==> r == Err(res.error) && undo == old(undo))
                && (res.Ok? ==> r == Ok(Some(applied)) && undo == old(undo) + [applied])
    {
      applied := Command.MoveAtom(0, Position(0, 0, 0), Position(0, 0, 0));
      if redo == [] {
        return Ok(None), applied;
      }
      var c := redo[|redo| - 1];
      redo := redo[..|redo| - 1];
      var c', res := Apply(c, m);
      applied := c';
      if res.Err? {
        return Err(res.error), applied;
      }
      undo := undo + [c'];
      r := Ok(Some(c'));
    }
  }

  // ---------------------------------------------------------------------------
  // Properties of `Record`

  /** The stack `Record` leaves stays within the capacity and ends with the command it returns. */
  lemma RecordKeepsBound(undo: seq<Command>, capacity: nat, applied: Command)
    requires 1 <= capacity && |undo| <= capacity
    ensures var (r, returned) := Record(undo, capacity, applied);
            1 <= |r| <= capacity && r[|r| - 1] == returned
  {
  }

  /** Without a merge, `Record` keeps the newest `capacity` entries of the pushed stack. */
  lemma RecordPushes(undo: seq<Command>, capacity: nat, applied: Command)
    requires |undo| <= capacity
    requires undo == [] || !MergeWith(undo[|undo| - 1], applied).1
    ensures Record(undo, capacity, applied) == (Newest(undo + [applied], capacity), applied)
  {
  }

  /**
   * A move of the atom the newest entry moved replaces that entry by one move from the
   * entry's source to the new target; no entry is added and none is lost.
   */
  lemma RecordCoalescesMoves(undo: seq<Command>, capacity: nat, id: AtomId, from: Position, to: Position)
    requires undo != [] && undo[|undo| - 1].MoveAtom? && undo[|undo| - 1].movedId == id
    ensures var (r, returned) := Record(undo, capacity, MoveAtom(id, from, to));
            && |r| == |undo| && r[..|r| - 1] == undo[..|undo| - 1]
            && returned == MoveAtom(id, undo[|undo| - 1].from, to) && r[|r| - 1] == returned
  {
  }

  /** The undo stack after executing `cs` one by one, each successfully. */
  function RecordAll(undo: seq<Command>, capacity: nat, cs: seq<Command>): seq<Command>
    decreases |cs|
  {
    if cs == [] then undo else RecordAll(Record(undo, capacity, cs[0]).0, capacity, cs[1..])
  }

  /** Appending to a suffix of `x` gives the same suffix of `x + y`. */
  lemma SuffixAppend(x: seq<Command>, y: seq<Command>, k: nat)
    requires k <= |x|
    ensures x[|x| - k..] + y == (x + y)[|x| - k..]
  {
  }

  /** Cutting a stack to its newest entries commutes with pushing more entries after it. */
  lemma NewestAppend(x: seq<Command>, y: seq<Command>, capacity: nat)
    ensures Newest(Newest(x, capacity) + y, capacity) == Newest(x + y, capacity)
  {
    if capacity < |x| {
      SuffixAppend(x, y, capacity);
      var z := x[|x| - capacity..] + y;
      var w := x + y;
      assert z == w[|x| - capacity..];
      assert z[|z| - Min(|z|, capacity)..] == w[|w| - Min(|w|, capacity)..];
    }
  }

  lemma PushThenRest(undo: seq<Command>, cs: seq<Command>)
    requires cs != []
    ensures undo + [cs[0]] + cs[1..] == undo + cs
  {
    assert cs == [cs[0]] + cs[1..];
  }

  /** From index `lo` on, no entry of `w` merges with the entry just before it. */
  predicate NoMergeFrom(w: seq<Command>, lo: nat) {
    forall i :: lo <= i < |w| && 0 < i ==> !MergeWith(w[i - 1], w[i]).1
  }

  /**
   * No command of `cs` merges with the entry just before it, the last entry of `undo` for the
   * first command.  With a capacity of at least 1 that entry is the top of the undo stack when
   * the command is recorded.
   */
  predicate NoMergeRun(undo: seq<Command>, cs: seq<Command>) {
    NoMergeFrom(undo + cs, |undo|)
  }

  lemma NoMergeSuffix(w: seq<Command>, lo: nat, d: nat)
    requires NoMergeFrom(w, lo) && d <= lo && d <= |w|
    ensures NoMergeFrom(w[d..], lo - d)
  {
    forall j | lo - d <= j < |w| - d && 0 < j ensures !MergeWith(w[d..][j - 1], w[d..][j]).1 {
      assert w[d..][j] == w[j + d] && w[d..][j - 1] == w[j - 1 + d];
    }
  }

  /** The first command of a run without merges does not merge with the top of the stack. */
  lemma NoMergeRunFirst(undo: seq<Command>, cs: seq<Command>)
    requires cs != [] && NoMergeRun(undo, cs)
    ensures undo == [] || !MergeWith(undo[|undo| - 1], cs[0]).1
  {
    var w := undo + cs;
    if undo != [] {
      assert w[|undo| - 1] == undo[|undo| - 1] && w[|undo|] == cs[0];
    }
  }

  /** After the first command of a run without merges is pushed, the rest of the run has no merges. */
  lemma NoMergeRunStep(undo: seq<Command>, capacity: nat, cs: seq<Command>)
    requires |undo| <= capacity && cs != [] && NoMergeRun(undo, cs)
    ensures NoMergeRun(Newest(undo + [cs[0]], capacity), cs[1..])
  {
    var w := undo + cs;
    var p := undo + [cs[0]];
    var next := Newest(p, capacity);
    var d := |p| - |next|;
    assert NoMergeFrom(w, |undo| + 1);
    PushThenRest(undo, cs);
    SuffixAppend(p, cs[1..], |next|);
    NoMergeSuffix(w, |undo| + 1, d);
    assert next + cs[1..] == w[d..];
  }

  lemma RecordAllStep(undo: seq<Command>, capacity: nat, cs: seq<Command>)
    requires |undo| <= capacity && cs != [] && (undo == [] || !MergeWith(undo[|undo| - 1], cs[0]).1)
    ensures RecordAll(undo, capacity, cs) == RecordAll(Newest(undo + [cs[0]], capacity), capacity, cs[1..])
  {
    RecordPushes(undo, capacity, cs[0]);
  }

  /**
   * However many commands are executed in a run in which none merges with the entry before
   * it, the undo stack holds the newest `capacity` of them, and of the entries before them,
   * in order.
   */
  lemma {:induction false} RecordAllKeepsNewest(undo: seq<Command>, capacity: nat, cs: seq<Command>)
    requires |undo| <= capacity
    requires NoMergeRun(undo, cs)
    ensures RecordAll(undo, capacity, cs) == Newest(undo + cs, capacity)
    decreases |cs|
  {
    if cs == [] {
      assert undo + cs == undo;
    } else {
      var pushed := undo + [cs[0]];
      var next := Newest(pushed, capacity);
      NoMergeRunFirst(undo, cs);
      NoMergeRunStep(undo, capacity, cs);
      RecordAllStep(undo, capacity, cs);
      RecordAllKeepsNewest(next, capacity, cs[1..]);
      NewestAppend(pushed, cs[1..], capacity);
      PushThenRest(undo, cs);
      calc {
        RecordAll(undo, capacity, cs);
        RecordAll(next, capacity, cs[1..]);
        Newest(next + cs[1..], capacity);
        Newest(pushed + cs[1..], capacity);
      }
    }
  }
}
