/** Trees of commands that are to be done as a whole or not at all. */
module AcidCommands {
  import opened Basics

  /** A command; without parts it is a leaf that does something itself. */
  datatype Cmd = Cmd(id: nat, subCommands: seq<Cmd>, subCommandsAreAcid: bool)

  /** An attempt at a leaf succeeds, or raises a known error without effect, on which the error handler may ask for a
      retry. */
  datatype Attempt = Succeeds | Fails(retry: bool)

  /** How the attempts will turn out, in the order they are made. */
  type Fate = nat -> Attempt

  /** The leaves done so far, in order, and the number of attempts made. */
  datatype Run = Run(done: seq<nat>, attempts: nat)

  /** A call returns true or false, or raises a rollback failure. */
  datatype Outcome = Returned(ok: bool, run: Run) | Raised(run: Run)

  /** Attempts a leaf, and once more if the handler asks for it. */
  function DoDo(fate: Fate, id: nat, retrying: bool, r: Run): Outcome
    decreases if retrying then 0 else 1
  {
    match fate(r.attempts)
    case Succeeds => Returned(true, Run(r.done + [id], r.attempts + 1))
    case Fails(retry) =>
      var after := Run(r.done, r.attempts + 1);
      if retry && !retrying then DoDo(fate, id, true, after) else Returned(false, after)
  }

  function DoCommand(fate: Fate, cmd: Cmd, hasAcidParent: bool, r: Run): Outcome
    decreases cmd, 4, 0
  {
    if hasAcidParent || cmd.subCommandsAreAcid then
      if cmd.subCommands != [] then DoAcidFrom(fate, cmd.subCommands, 0, r) else DoDo(fate, cmd.id, false, r)
    else if cmd.subCommands != [] then DoPlainFrom(fate, cmd.subCommands, 0, r)
    else
      var o := DoDo(fate, cmd.id, false, r);
      if o.Returned? then Returned(true, o.run) else o
  }

  /** Parts that are not ACID are done one after the other, whatever comes of each. */
  function DoPlainFrom(fate: Fate, subs: seq<Cmd>, i: nat, r: Run): Outcome
    requires i <= |subs|
    decreases subs, 3, |subs| - i
  {
    if i == |subs| then Returned(true, r)
    else
      var o := DoCommand(fate, subs[i], false, r);
      if o.Raised? then o else DoPlainFrom(fate, subs, i + 1, o.run)
  }

  /** ACID parts are done until one fails; then those before it are to be undone. */
  function DoAcidFrom(fate: Fate, subs: seq<Cmd>, i: nat, r: Run): Outcome
    requires i <= |subs|
    decreases subs, 3, |subs| - i
  {
    if i == |subs| then Returned(true, r)
    else
      var o := DoCommand(fate, subs[i], true, r);
      if o.Raised? then o
      else if o.ok then DoAcidFrom(fate, subs, i + 1, o.run)
      else RollBack(fate, subs, i, o.run)
  }

  /** Undoes the parts before `i`, last first. */
  function RollBack(fate: Fate, subs: seq<Cmd>, i: nat, r: Run): Outcome
    requires i <= |subs|
    decreases subs, 2, i
  {
    if i == 0 then Returned(false, r)
    else
      var o := UndoCommand(fate, subs[i - 1], r);
      if o.Raised? then o else if o.ok then RollBack(fate, subs, i - 1, o.run) else Raised(o.run)
  }

  /** Undo within an ACID parent: a leaf is not undone, it only returns false. */
  function UndoCommand(fate: Fate, cmd: Cmd, r: Run): Outcome
    decreases cmd, 4, 0
  {
    if cmd.subCommands != [] then UndoAcidFrom(fate, cmd.subCommands, |cmd.subCommands|, r) else Returned(false, r)
  }

  /** Undoes the parts below `i`, last first; when one fails, those after it are to be done again. */
  function UndoAcidFrom(fate: Fate, subs: seq<Cmd>, i: nat, r: Run): Outcome
    requires i <= |subs|
    decreases subs, 1, i
  {
    if i == 0 then Returned(true, r)
    else
      var o := UndoCommand(fate, subs[i - 1], r);
      if o.Raised? then o
      else if o.ok then UndoAcidFrom(fate, subs, i - 1, o.run)
      else RollForward(fate, subs, i, o.run)
  }

  function RollForward(fate: Fate, subs: seq<Cmd>, i: nat, r: Run): Outcome
    requires i <= |subs|
    decreases subs, 0, |subs| - i
  {
    if i == |subs| then Returned(false, r)
    else
      var o := DoCommand(fate, subs[i], true, r);
      if o.Raised? then o else if o.ok then RollForward(fate, subs, i + 1, o.run) else Raised(o.run)
  }

  // ----- What comes of it -----

  /** Nothing within an ACID parent is ever undone. */
  lemma {:induction false} NeverUndone(fate: Fate, cmd: Cmd, r: Run)
    ensures UndoCommand(fate, cmd, r) == Returned(false, r)
  {
    if cmd.subCommands != [] {
      var subs := cmd.subCommands;
      NeverUndone(fate, subs[|subs| - 1], r);
      assert RollForward(fate, subs, |subs|, r) == Returned(false, r);
      assert UndoAcidFrom(fate, subs, |subs|, r) == Returned(false, r);
    }
  }

  lemma RollBackFails(fate: Fate, subs: seq<Cmd>, i: nat, r: Run)
    requires i <= |subs|
    ensures RollBack(fate, subs, i, r) == if i == 0 then Returned(false, r) else Raised(r)
  {
    if i > 0 {
      NeverUndone(fate, subs[i - 1], r);
    }
  }

  function Leaves(cmd: Cmd): (ids: seq<nat>)
    ensures ids != []
    decreases cmd, 1
  {
    if cmd.subCommands == [] then [cmd.id] else LeavesOf(cmd.subCommands)
  }

  function LeavesOf(subs: seq<Cmd>): (ids: seq<nat>)
    ensures subs != [] ==> ids != []
    decreases subs, 0
  {
    if subs == [] then [] else Leaves(subs[0]) + LeavesOf(subs[1..])
  }

  /** The leaves attempted one after the other until one fails. */
  datatype Progress = Progress(count: nat, ok: bool, run: Run)

  function Attempts(fate: Fate, ids: seq<nat>, r: Run): (p: Progress)
    ensures p.count <= |ids| && (p.ok <==> p.count == |ids|)
    ensures p.run.done == r.done + ids[..p.count]
    ensures r.attempts + p.count <= p.run.attempts <= r.attempts + 2 * (p.count + (if p.ok then 0 else 1))
    decreases |ids|
  {
    if ids == [] then Progress(0, true, r)
    else
      var o := DoDo(fate, ids[0], false, r);
      if !o.ok then Progress(0, false, o.run)
      else
        var p := Attempts(fate, ids[1..], o.run);
        Progress(p.count + 1, p.ok, p.run)
  }

  lemma {:induction false} AttemptsConcat(fate: Fate, a: seq<nat>, b: seq<nat>, r: Run)
    ensures Attempts(fate, a + b, r) ==
      var p := Attempts(fate, a, r);
      if !p.ok then p else var q := Attempts(fate, b, p.run); Progress(p.count + q.count, q.ok, q.run)
    decreases |a|
  {
    if a == [] {
      assert a + b == b;
    } else {
      assert (a + b)[0] == a[0] && (a + b)[1..] == a[1..] + b;
      var o := DoDo(fate, a[0], false, r);
      if o.ok {
        AttemptsConcat(fate, a[1..], b, o.run);
      }
    }
  }

  lemma {:induction false} LeavesConcat(subs: seq<Cmd>, i: nat)
    requires i < |subs|
    ensures LeavesOf(subs[i..]) == Leaves(subs[i]) + LeavesOf(subs[i + 1..])
  {
    assert subs[i..][0] == subs[i] && subs[i..][1..] == subs[i + 1..];
  }

  /** All leaves done: true. None done: false. Some done: the rollback fails and is raised. */
  function Verdict(p: Progress): Outcome {
    if p.ok then Returned(true, p.run) else if p.count == 0 then Returned(false, p.run) else Raised(p.run)
  }

  /** An ACID command of any depth does its leaves in order, each with at most one retry, until one fails for good. It
      returns true if none does, false with no effect if the first one does, and otherwise raises a rollback failure
      with what was done before left in place. */
  lemma {:induction false} AcidOutcome(fate: Fate, cmd: Cmd, r: Run)
    ensures DoCommand(fate, cmd, true, r) == Verdict(Attempts(fate, Leaves(cmd), r))
    decreases cmd, 1, 0
  {
    if cmd.subCommands == [] {
      assert [cmd.id][1..] == [];
      var o := DoDo(fate, cmd.id, false, r);
      assert Attempts(fate, [cmd.id][1..], o.run) == Progress(0, true, o.run);
    } else {
      assert cmd.subCommands[0..] == cmd.subCommands;
      AcidFromOutcome(fate, cmd.subCommands, 0, r);
    }
  }

  lemma {:induction false} AcidFromOutcome(fate: Fate, subs: seq<Cmd>, i: nat, r: Run)
    requires i <= |subs|
    ensures DoAcidFrom(fate, subs, i, r) ==
      var p := Attempts(fate, LeavesOf(subs[i..]), r);
      if p.ok then Returned(true, p.run) else if i == 0 && p.count == 0 then Returned(false, p.run) else Raised(p.run)
    decreases subs, 0, |subs| - i
  {
    if i == |subs| {
      assert subs[i..] == [];
    } else {
      AcidOutcome(fate, subs[i], r);
      LeavesConcat(subs, i);
      AttemptsConcat(fate, Leaves(subs[i]), LeavesOf(subs[i + 1..]), r);
      var o := DoCommand(fate, subs[i], true, r);
      if o.Returned? {
        if o.ok {
          AcidFromOutcome(fate, subs, i + 1, o.run);
        } else {
          RollBackFails(fate, subs, i, o.run);
        }
      }
    }
  }

  /** Never a partial effect behind a normal return; and exactly then a rollback failure when some but not all leaves
      were done. */
  lemma NoPartialEffect(fate: Fate, cmd: Cmd, hasAcidParent: bool, r: Run)
    requires hasAcidParent || cmd.subCommandsAreAcid
    ensures var o := DoCommand(fate, cmd, hasAcidParent, r);
      && (o.Returned? && o.ok ==> o.run.done == r.done + Leaves(cmd))
      && (o.Returned? && !o.ok ==> o.run.done == r.done)
      && (o.Raised? <==> o.run.done != r.done && o.run.done != r.done + Leaves(cmd))
      && o.run.attempts <= r.attempts + 2 * |Leaves(cmd)|
  {
    AcidOutcome(fate, cmd, r);
    assert DoCommand(fate, cmd, true, r) == DoCommand(fate, cmd, hasAcidParent, r);
    var p := Attempts(fate, Leaves(cmd), r);
    assert |p.run.done| == |r.done| + p.count;
  }

  // ----- In terms of how the attempts turn out -----

  /** A leaf whose first attempt has number `n` succeeds at once, or after the one retry that was asked for. */
  predicate LeafSucceeds(fate: Fate, n: nat) {
    fate(n).Succeeds? || (fate(n) == Fails(true) && fate(n + 1).Succeeds?)
  }

  function LeafAttempts(fate: Fate, n: nat): nat {
    if fate(n) == Fails(true) then 2 else 1
  }

  /** The number of the first attempt at the `m`-th leaf after attempt `n`. */
  function FirstAttempt(fate: Fate, n: nat, m: nat): nat {
    if m == 0 then n else var k := FirstAttempt(fate, n, m - 1); k + LeafAttempts(fate, k)
  }

  lemma LeafByFate(fate: Fate, id: nat, r: Run)
    ensures var n := r.attempts;
      DoDo(fate, id, false, r) == Returned(LeafSucceeds(fate, n),
        Run(if LeafSucceeds(fate, n) then r.done + [id] else r.done, n + LeafAttempts(fate, n)))
  {
  }

  lemma {:induction false} FirstAttemptNext(fate: Fate, n: nat, m: nat)
    ensures FirstAttempt(fate, n + LeafAttempts(fate, n), m) == FirstAttempt(fate, n, m + 1)
  {
    if m > 0 {
      FirstAttemptNext(fate, n, m - 1);
    }
  }

  /** Leaves are done up to the first that does not succeed, each with its own attempts. */
  lemma {:induction false} AttemptsByFate(fate: Fate, ids: seq<nat>, r: Run)
    ensures var p, n := Attempts(fate, ids, r), r.attempts;
      && (forall m :: 0 <= m < p.count ==> LeafSucceeds(fate, FirstAttempt(fate, n, m)))
      && (!p.ok ==> !LeafSucceeds(fate, FirstAttempt(fate, n, p.count)))
      && p.run.attempts == FirstAttempt(fate, n, if p.ok then p.count else p.count + 1)
    decreases |ids|
  {
    hide LeafSucceeds, LeafAttempts;
    if ids != [] {
      var n := r.attempts;
      LeafByFate(fate, ids[0], r);
      assert FirstAttempt(fate, n, 0) == n && FirstAttempt(fate, n, 1) == n + LeafAttempts(fate, n);
      if LeafSucceeds(fate, n) {
        var o := DoDo(fate, ids[0], false, r);
        AttemptsByFate(fate, ids[1..], o.run);
        var p := Attempts(fate, ids[1..], o.run);
        forall m | 0 <= m <= p.count + 1
          ensures FirstAttempt(fate, o.run.attempts, m) == FirstAttempt(fate, n, m + 1)
        {
          FirstAttemptNext(fate, n, m);
        }
        forall m | 0 <= m < p.count + 1 ensures LeafSucceeds(fate, FirstAttempt(fate, n, m)) {
          if m > 0 {
            assert LeafSucceeds(fate, FirstAttempt(fate, o.run.attempts, m - 1));
          }
        }
      }
    }
  }

  /** An ACID command returns true exactly if every leaf in turn succeeds, and false exactly if the first one does not;
      otherwise what was done before the first that does not is left in place. */
  lemma AcidByFate(fate: Fate, cmd: Cmd, r: Run)
    ensures var o, n, ids := DoCommand(fate, cmd, true, r), r.attempts, Leaves(cmd);
      && (o.Returned? && o.ok <==> forall m :: 0 <= m < |ids| ==> LeafSucceeds(fate, FirstAttempt(fate, n, m)))
      && (o.Returned? && !o.ok <==> !LeafSucceeds(fate, n))
      && (o.Returned? && o.ok ==> o.run == Run(r.done + ids, FirstAttempt(fate, n, |ids|)))
      && (o.Returned? && !o.ok ==> o.run == Run(r.done, FirstAttempt(fate, n, 1)))
      && (o.Raised? ==> exists m ::
            && 0 < m < |ids| && (forall h :: 0 <= h < m ==> LeafSucceeds(fate, FirstAttempt(fate, n, h)))
            && !LeafSucceeds(fate, FirstAttempt(fate, n, m))
            && o.run == Run(r.done + ids[..m], FirstAttempt(fate, n, m + 1)))
  {
    hide DoCommand, LeafSucceeds, LeafAttempts;
    var ids, n := Leaves(cmd), r.attempts;
    AcidOutcome(fate, cmd, r);
    AttemptsByFate(fate, ids, r);
    var p := Attempts(fate, ids, r);
    assert FirstAttempt(fate, n, 0) == n;
    assert p.ok ==> ids[..p.count] == ids;
    assert p.count == 0 ==> r.done + ids[..p.count] == r.done;
    if p.count > 0 {
      assert LeafSucceeds(fate, FirstAttempt(fate, n, 0));
    }
  }

  /** The leaves of parts that follow each other follow each other. */
  lemma {:induction false} LeavesInOrder(a: seq<Cmd>, b: seq<Cmd>)
    ensures LeavesOf(a + b) == LeavesOf(a) + LeavesOf(b)
  {
    if a == [] {
      assert a + b == b;
    } else {
      assert (a + b)[0] == a[0] && (a + b)[1..] == a[1..] + b;
      LeavesInOrder(a[1..], b);
    }
  }

  lemma LeavesOfOne(cmd: Cmd)
    ensures LeavesOf([cmd]) == Leaves(cmd)
  {
    assert [cmd][1..] == [];
    assert LeavesOf([cmd][1..]) == [];
  }

  /** Two leaves, of which the second fails for good: what the first one did stays. */
  lemma PartialEffect()
    ensures
      var pair := Cmd(0, [Cmd(1, [], false), Cmd(2, [], false)], true);
      var fate: Fate := n => if n == 0 then Succeeds else Fails(false);
      DoCommand(fate, pair, false, Run([], 0)) == Raised(Run([1], 2))
  {
    var a, b := Cmd(1, [], false), Cmd(2, [], false);
    var pair := Cmd(0, [a, b], true);
    var fate: Fate := n => if n == 0 then Succeeds else Fails(false);
    AcidOutcome(fate, pair, Run([], 0));
    assert [a, b][1..] == [b] && [b][1..] == [] && LeavesOf([b][1..]) == [];
    assert LeavesOf([b]) == Leaves(b) + LeavesOf([b][1..]) == [2];
    assert LeavesOf([a, b]) == Leaves(a) + LeavesOf([a, b][1..]) == [1, 2];
    assert [1, 2][1..] == [2];
    assert Attempts(fate, [2], Run([1], 1)) == Progress(0, false, Run([1], 2));
  }

  // ----- Commands that are not ACID -----

  /** What is done as a whole or fails as a whole: each leaf by itself, and each ACID part with all its leaves. */
  function Blocks(cmd: Cmd): (bs: seq<seq<nat>>)
    ensures forall i :: 0 <= i < |bs| ==> bs[i] != []
    decreases cmd, 1
  {
    if cmd.subCommandsAreAcid then [Leaves(cmd)]
    else if cmd.subCommands == [] then [[cmd.id]]
    else BlocksOf(cmd.subCommands)
  }

  function BlocksOf(subs: seq<Cmd>): (bs: seq<seq<nat>>)
    ensures forall i :: 0 <= i < |bs| ==> bs[i] != []
    decreases subs, 0
  {
    if subs == [] then [] else Blocks(subs[0]) + BlocksOf(subs[1..])
  }

  lemma {:induction false} BlocksInOrder(a: seq<Cmd>, b: seq<Cmd>)
    ensures BlocksOf(a + b) == BlocksOf(a) + BlocksOf(b)
  {
    if a == [] {
      assert a + b == b;
    } else {
      assert (a + b)[0] == a[0] && (a + b)[1..] == a[1..] + b;
      BlocksInOrder(a[1..], b);
    }
  }

  /** Attempts one block after the other, whatever comes of each, until one is left half done. */
  function RunBlocks(fate: Fate, bs: seq<seq<nat>>, r: Run): (o: Outcome)
    ensures o.Returned? ==> o.ok
    decreases |bs|
  {
    if bs == [] then Returned(true, r)
    else
      var p := Attempts(fate, bs[0], r);
      if 0 < p.count < |bs[0]| then Raised(p.run) else RunBlocks(fate, bs[1..], p.run)
  }

  lemma {:induction false} RunBlocksConcat(fate: Fate, a: seq<seq<nat>>, b: seq<seq<nat>>, r: Run)
    ensures RunBlocks(fate, a + b, r) ==
      var o := RunBlocks(fate, a, r);
      if o.Raised? then o else RunBlocks(fate, b, o.run)
    decreases |a|
  {
    if a == [] {
      assert a + b == b;
    } else {
      assert (a + b)[0] == a[0] && (a + b)[1..] == a[1..] + b;
      RunBlocksConcat(fate, a[1..], b, Attempts(fate, a[0], r).run);
    }
  }

  /** A rollback failure aside, a call outside an ACID parent runs through all blocks. */
  lemma {:induction false} PlainOutcome(fate: Fate, cmd: Cmd, r: Run)
    ensures var o := DoCommand(fate, cmd, false, r);
      && RunBlocks(fate, Blocks(cmd), r) == (if o.Raised? then o else Returned(true, o.run))
      && (!cmd.subCommandsAreAcid && o.Returned? ==> o.ok)
    decreases cmd, 1, 0
  {
    hide Attempts;
    if cmd.subCommandsAreAcid {
      AcidOutcome(fate, cmd, r);
      assert DoCommand(fate, cmd, true, r) == DoCommand(fate, cmd, false, r);
      OneBlock(fate, Leaves(cmd), r);
    } else if cmd.subCommands == [] {
      OneLeaf(fate, cmd.id, r);
      OneBlock(fate, [cmd.id], r);
    } else {
      assert cmd.subCommands[0..] == cmd.subCommands;
      PlainFromOutcome(fate, cmd.subCommands, 0, r);
    }
  }

  lemma OneBlock(fate: Fate, ids: seq<nat>, r: Run)
    ensures RunBlocks(fate, [ids], r) ==
      var p := Attempts(fate, ids, r);
      if 0 < p.count < |ids| then Raised(p.run) else Returned(true, p.run)
  {
    hide Attempts;
    assert [ids][1..] == [];
    assert RunBlocks(fate, [ids][1..], Attempts(fate, ids, r).run) == Returned(true, Attempts(fate, ids, r).run);
  }

  lemma OneLeaf(fate: Fate, id: nat, r: Run)
    ensures Attempts(fate, [id], r).run == DoDo(fate, id, false, r).run && Attempts(fate, [id], r).count <= 1
  {
    assert [id][1..] == [];
    var o := DoDo(fate, id, false, r);
    assert Attempts(fate, [id][1..], o.run) == Progress(0, true, o.run);
  }

  lemma {:induction false} PlainFromOutcome(fate: Fate, subs: seq<Cmd>, i: nat, r: Run)
    requires i <= |subs|
    ensures DoPlainFrom(fate, subs, i, r) == RunBlocks(fate, BlocksOf(subs[i..]), r)
    decreases subs, 0, |subs| - i
  {
    if i == |subs| {
      assert subs[i..] == [];
    } else {
      PlainOutcome(fate, subs[i], r);
      assert subs[i..][0] == subs[i] && subs[i..][1..] == subs[i + 1..];
      RunBlocksConcat(fate, Blocks(subs[i]), BlocksOf(subs[i + 1..]), r);
      var o := DoCommand(fate, subs[i], false, r);
      if o.Returned? {
        PlainFromOutcome(fate, subs, i + 1, o.run);
      }
    }
  }

  /** The leaves of the blocks that were chosen. */
  function Chosen(bs: seq<seq<nat>>, done: seq<bool>): seq<nat>
    requires |done| <= |bs|
  {
    if done == [] then []
    else (if done[0] then bs[0] else []) + Chosen(bs[1..], done[1..])
  }

  /** What ends up done: whole blocks, in order; only where a rollback fails, a proper part of the block that it stops
      in. */
  lemma {:induction false} BlocksDone(fate: Fate, bs: seq<seq<nat>>, r: Run) returns (done: seq<bool>, part: seq<nat>)
    requires forall i :: 0 <= i < |bs| ==> bs[i] != []
    ensures var o := RunBlocks(fate, bs, r);
      && |done| <= |bs| && o.run.done == r.done + Chosen(bs, done) + part
      && (o.Returned? ==> |done| == |bs| && part == [])
      && (o.Raised? ==> |done| < |bs| && [] < part < bs[|done|])
    decreases |bs|
  {
    hide Attempts, Chosen;
    done, part := [], [];
    NoneChosen(bs);
    if bs != [] {
      var p := Attempts(fate, bs[0], r);
      if 0 < p.count < |bs[0]| {
        part := bs[0][..p.count];
        assert r.done + [] == r.done;
      } else {
        var more;
        more, part := BlocksDone(fate, bs[1..], p.run);
        var first := if p.count > 0 then bs[0] else [];
        assert p.run.done == r.done + first;
        done := [p.count > 0] + more;
        ChosenMore(bs, p.count > 0, more);
        ConcatAssociative(r.done, first, Chosen(bs[1..], more));
      }
    } else {
      assert r.done + [] + [] == r.done;
    }
  }

  lemma NoneChosen(bs: seq<seq<nat>>)
    ensures Chosen(bs, []) == []
  {
  }

  lemma ChosenMore(bs: seq<seq<nat>>, b: bool, more: seq<bool>)
    requires |more| < |bs|
    ensures Chosen(bs, [b] + more) == (if b then bs[0] else []) + Chosen(bs[1..], more)
  {
    assert ([b] + more)[1..] == more;
  }

  // ----- The commander's own loops -----

  class Commander {
    const fate: Fate
    var done: seq<nat>
    var attempts: nat

    constructor (fate: Fate)
      ensures this.fate == fate && Now() == Run([], 0)
    {
      this.fate, done, attempts := fate, [], 0;
    }

    ghost function Now(): Run
      reads this
    {
      Run(done, attempts)
    }

    /** A leaf; `retrying` allows no second retry. */
    method Leaf(id: nat, retrying: bool) returns (ok: bool)
      modifies this
      ensures Returned(ok, Now()) == DoDo(fate, id, retrying, old(Now()))
      decreases if retrying then 0 else 1
    {
      var attempt := fate(attempts);
      attempts := attempts + 1;
      match attempt
      case Succeeds =>
        done := done + [id];
        return true;
      case Fails(retry) =>
        if retry && !retrying {
          ok := Leaf(id, true);
        } else {
          return false;
        }
    }

    method Do(cmd: Cmd, hasAcidParent: bool) returns (ok: bool, raised: bool)
      modifies this
      ensures DoCommand(fate, cmd, hasAcidParent, old(Now())) == if raised then Raised(Now()) else Returned(ok, Now())
      decreases cmd, 4, 0
    {
      if hasAcidParent || cmd.subCommandsAreAcid {
        if |cmd.subCommands| > 0 {
          ok, raised := DoAcidSubItems(cmd.subCommands);
        } else {
          ok := Leaf(cmd.id, false);
          raised := false;
        }
      } else {
        raised := false;
        if |cmd.subCommands| > 0 {
          raised := DoSubItems(cmd.subCommands);
        } else {
          var _ := Leaf(cmd.id, false);
        }
        ok := true;
      }
    }

    method DoSubItems(subs: seq<Cmd>) returns (raised: bool)
      modifies this
      ensures DoPlainFrom(fate, subs, 0, old(Now())) == if raised then Raised(Now()) else Returned(true, Now())
      decreases subs, 3, 0
    {
      var i := 0;
      while i < |subs|
        invariant 0 <= i <= |subs| && DoPlainFrom(fate, subs, i, Now()) == DoPlainFrom(fate, subs, 0, old(Now()))
      {
        var ok;
        ok, raised := Do(subs[i], false);
        if raised {
          return;
        }
        i := i + 1;
      }
      return false;
    }

    method DoAcidSubItems(subs: seq<Cmd>) returns (ok: bool, raised: bool)
      modifies this
      ensures DoAcidFrom(fate, subs, 0, old(Now())) == if raised then Raised(Now()) else Returned(ok, Now())
      decreases subs, 3, 0
    {
      var i := 0;
      while i < |subs|
        invariant 0 <= i <= |subs| && DoAcidFrom(fate, subs, i, Now()) == DoAcidFrom(fate, subs, 0, old(Now()))
      {
        ok, raised := Do(subs[i], true);
        if raised {
          return;
        }
        if !ok {
          while i > 0
            invariant 0 <= i <= |subs| && RollBack(fate, subs, i, Now()) == DoAcidFrom(fate, subs, 0, old(Now()))
          {
            i := i - 1;
            ok, raised := Undo(subs[i]);
            if raised {
              return;
            }
            if !ok {
              return false, true;
            }
          }
          return false, false;
        }
        i := i + 1;
      }
      return true, false;
    }

    method Undo(cmd: Cmd) returns (ok: bool, raised: bool)
      modifies this
      ensures UndoCommand(fate, cmd, old(Now())) == if raised then Raised(Now()) else Returned(ok, Now())
      decreases cmd, 4, 0
    {
      if |cmd.subCommands| > 0 {
        ok, raised := UndoAcidSubItems(cmd.subCommands);
      } else {
        return false, false;
      }
    }

    method UndoAcidSubItems(subs: seq<Cmd>) returns (ok: bool, raised: bool)
      modifies this
      ensures UndoAcidFrom(fate, subs, |subs|, old(Now())) == if raised then Raised(Now()) else Returned(ok, Now())
      decreases subs, 3, 0
    {
      var i := |subs|;
      while i > 0
        invariant 0 <= i <= |subs| && UndoAcidFrom(fate, subs, i, Now()) == UndoAcidFrom(fate, subs, |subs|, old(Now()))
      {
        ok, raised := Undo(subs[i - 1]);
        if raised {
          return;
        }
        if !ok {
          while i < |subs|
            invariant 0 <= i <= |subs|
            invariant RollForward(fate, subs, i, Now()) == UndoAcidFrom(fate, subs, |subs|, old(Now()))
          {
            ok, raised := Do(subs[i], true);
            if raised {
              return;
            }
            if !ok {
              return false, true;
            }
            i := i + 1;
          }
          return false, false;
        }
        i := i - 1;
      }
      return true, false;
    }
  }
}
