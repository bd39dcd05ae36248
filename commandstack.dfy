// The command stack: executed actions are pushed after the current position
// (dropping anything that could have been redone), and undo and redo move the
// position over whole groups of actions that share the id of the command
// that started them.
module Commands {
  import opened Wrappers

  /** A command to run: its name and an opaque context. */
  datatype Cmd = Cmd(command: string, context: nat)

  /** An executed action: the command and the id of the top-level command it belongs to. */
  datatype Action = Action(cmd: Cmd, id: nat)

  datatype StackError = CommandRequired | NoHandler(command: string) | HandlerRequired | OverridingHandler(command: string)

  // -------------------------------------------------------------------
  // Groups of actions

  /** The first index of the run of actions with `s[i]`'s id that ends at `i`. */
  function GroupStart(s: seq<Action>, i: nat): (g: nat)
    requires i < |s|
    ensures g <= i
    ensures forall k :: g <= k <= i ==> s[k].id == s[i].id
    ensures g == 0 || s[g - 1].id != s[i].id
  {
    if i > 0 && s[i - 1].id == s[i].id then GroupStart(s, i - 1) else i
  }

  /** The last index of the run of actions with `s[j]`'s id that starts at `j`. */
  function GroupEnd(s: seq<Action>, j: nat): (e: nat)
    requires j < |s|
    ensures j <= e < |s|
    ensures forall k :: j <= k <= e ==> s[k].id == s[j].id
    ensures e + 1 == |s| || s[e + 1].id != s[j].id
    decreases |s| - j
  {
    if j + 1 < |s| && s[j + 1].id == s[j].id then GroupEnd(s, j + 1) else j
  }

  /** The position after `undo`: before the group ending at `i`. */
  function UndoTarget(s: seq<Action>, i: int): (r: int)
    requires -1 <= i < |s|
    ensures -1 <= r <= i && (i >= 0 ==> r < i)
  {
    if i < 0 then i else GroupStart(s, i) - 1
  }

  /** The position after `redo`: at the end of the group starting at `i + 1`. */
  function RedoTarget(s: seq<Action>, i: int): (r: int)
    requires -1 <= i < |s|
    ensures i <= r < |s| && (i + 1 < |s| ==> r > i)
  {
    if i + 1 >= |s| then i else GroupEnd(s, i + 1)
  }

  /** Ids never decrease along the stack and the position sits at the end of a group. */
  predicate Grouped(s: seq<Action>, idx: int)
  {
    && -1 <= idx < |s|
    && (forall i, j :: 0 <= i < j < |s| ==> s[i].id <= s[j].id)
    && (0 <= idx && idx + 1 < |s| ==> s[idx].id != s[idx + 1].id)
  }

  lemma {:induction false} GroupEndOf(s: seq<Action>, j: nat, e: nat)
    requires j <= e < |s|
    requires forall k :: j <= k <= e ==> s[k].id == s[j].id
    requires e + 1 == |s| || s[e + 1].id != s[e].id
    ensures GroupEnd(s, j) == e
    decreases e - j
  {
    if j < e {
      GroupEndOf(s, j + 1, e);
    }
  }

  lemma {:induction false} GroupStartOf(s: seq<Action>, g: nat, i: nat)
    requires g <= i < |s|
    requires forall k :: g <= k <= i ==> s[k].id == s[i].id
    requires g == 0 || s[g - 1].id != s[g].id
    ensures GroupStart(s, i) == g
    decreases i - g
  {
    if g < i {
      GroupStartOf(s, g, i - 1);
    }
  }

  /** Redo after undo returns to the same position. */
  lemma UndoThenRedo(s: seq<Action>, idx: int)
    requires Grouped(s, idx) && idx >= 0
    ensures RedoTarget(s, UndoTarget(s, idx)) == idx
  {
    var g := GroupStart(s, idx);
    GroupEndOf(s, g, idx);
  }

  /** Undo after redo returns to the same position. */
  lemma RedoThenUndo(s: seq<Action>, idx: int)
    requires Grouped(s, idx) && idx + 1 < |s|
    ensures UndoTarget(s, RedoTarget(s, idx)) == idx
  {
    var e := GroupEnd(s, idx + 1);
    GroupStartOf(s, idx + 1, e);
  }

  /**
   * Two executions stamped with the same id, as happens while an earlier
   * execution is left open, form a single group: one undo reverts both.
   */
  lemma {:induction false} SharedIdOneGroup(base: seq<Action>, first: seq<Cmd>, second: seq<Cmd>, id: nat)
    requires |second| > 0
    requires |base| > 0 ==> base[|base| - 1].id != id
    ensures var s := base + Stamp(first, id) + Stamp(second, id);
      UndoTarget(s, |s| - 1) == |base| - 1
  {
    var s := base + Stamp(first, id) + Stamp(second, id);
    GroupStartOf(s, |base|, |s| - 1);
  }

  /** Undo and redo keep the position at the end of a group. */
  lemma UndoRedoGrouped(s: seq<Action>, idx: int)
    requires Grouped(s, idx)
    ensures Grouped(s, UndoTarget(s, idx)) && Grouped(s, RedoTarget(s, idx))
  {
    if idx >= 0 {
      var g := GroupStart(s, idx);
      if g > 0 {
        assert s[g - 1].id != s[g].id;
      }
    }
  }

  // -------------------------------------------------------------------
  // Executing

  /** The index of the first command that cannot run: no name, or no registered handler. */
  function FirstInvalid(cmds: seq<Cmd>, handlers: set<string>): (n: nat)
    ensures n <= |cmds|
    ensures forall k :: 0 <= k < n ==> cmds[k].command != "" && cmds[k].command in handlers
    ensures n < |cmds| ==> cmds[n].command == "" || cmds[n].command !in handlers
  {
    if cmds == [] || cmds[0].command == "" || cmds[0].command !in handlers then 0
    else 1 + FirstInvalid(cmds[1..], handlers)
  }

  /** The actions of `cmds`, all stamped with `id`. */
  function Stamp(cmds: seq<Cmd>, id: nat): (r: seq<Action>)
    ensures |r| == |cmds| && forall k :: 0 <= k < |cmds| ==> r[k] == Action(cmds[k], id)
  {
    if cmds == [] then [] else [Action(cmds[0], id)] + Stamp(cmds[1..], id)
  }

  /** The error a command that cannot run raises. */
  function ErrorOf(c: Cmd): StackError
  {
    if c.command == "" then CommandRequired else NoHandler(c.command)
  }

  /** The id `execute` gives its actions: the open one if a command threw, the fresh `uid` otherwise. */
  function NextId(pending: Option<nat>, uid: nat): (id: nat)
    ensures pending.None? ==> id == uid
    ensures pending.Some? ==> id == pending.value
  {
    if pending.Some? then pending.value else uid
  }

  /**
   * The stack is grouped, every id on it was handed out before `uid`, and an
   * open execution's id is not below any of them.
   */
  ghost predicate Consistent(stack: seq<Action>, stackIdx: int, uid: nat, pending: Option<nat>)
  {
    && Grouped(stack, stackIdx) && uid >= 1
    && (forall k :: 0 <= k < |stack| ==> stack[k].id < uid)
    && (pending.Some? ==> pending.value < uid && forall k :: 0 <= k < |stack| ==> stack[k].id <= pending.value)
  }

  /** Moving the position by an undo or a redo keeps a consistent state consistent. */
  lemma MoveConsistent(stack: seq<Action>, stackIdx: int, uid: nat, pending: Option<nat>)
    requires Consistent(stack, stackIdx, uid, pending)
    ensures Consistent(stack, UndoTarget(stack, stackIdx), uid, pending)
    ensures Consistent(stack, RedoTarget(stack, stackIdx), uid, pending)
  {
    UndoRedoGrouped(stack, stackIdx);
  }

  /** The id an execution takes is not below any id on a consistent stack. */
  lemma NextIdAbove(stack: seq<Action>, stackIdx: int, uid: nat, pending: Option<nat>)
    requires Consistent(stack, stackIdx, uid, pending)
    ensures forall k :: 0 <= k < |stack| ==> stack[k].id <= NextId(pending, uid)
    ensures Consistent(stack, stackIdx, uid + (if pending.None? then 1 else 0), Some(NextId(pending, uid)))
    ensures Consistent(stack, stackIdx, uid + (if pending.None? then 1 else 0), pending)
  {
  }

  class CommandStack {
    var stack: seq<Action>
    var stackIdx: int
    var handlers: set<string>
    /** The next fresh action id. */
    var uid: nat
    /**
     * The id of the actions a command that threw left open: a later
     * `execute` takes this id instead of a fresh one.
     */
    var pending: Option<nat>

    ghost predicate Valid()
      reads this
    {
      Consistent(stack, stackIdx, uid, pending)
    }

    constructor ()
      ensures Valid() && stack == [] && stackIdx == -1 && handlers == {} && uid == 1 && pending == None
    {
      stack := [];
      stackIdx := -1;
      handlers := {};
      uid := 1;
      pending := None;
    }

    predicate CanUndo()
      reads this
    {
      0 <= stackIdx < |stack|
    }

    predicate CanRedo()
      reads this
    {
      0 <= stackIdx + 1 < |stack|
    }

    /** `register(command, handler)`: a name and a handler are required, and a command has at most one handler. */
    method Register(command: string, hasHandler: bool) returns (r: Result<(), StackError>)
      requires Valid()
      modifies this
      ensures Valid()
      ensures command == "" || !hasHandler ==> r == Failure(HandlerRequired) && handlers == old(handlers)
      ensures command != "" && hasHandler && command in old(handlers) ==> r == Failure(OverridingHandler(command)) && handlers == old(handlers)
      ensures command != "" && hasHandler && command !in old(handlers) ==> r.Success? && handlers == old(handlers) + {command}
      ensures stack == old(stack) && stackIdx == old(stackIdx) && uid == old(uid) && pending == old(pending)
    {
      if command == "" || !hasHandler {
        return Failure(HandlerRequired);
      }
      if command in handlers {
        return Failure(OverridingHandler(command));
      }
      handlers := handlers + {command};
      r := Success(());
    }

    /**
     * `execute(command, context)` whose handler runs the commands `pre` from
     * its `preExecute` and `post` from its `postExecute`: every action gets
     * the top-level command's id and is pushed after the current position,
     * dropping what could have been redone. The id is fresh unless an earlier
     * execution threw and left its actions open, in which case it is that
     * execution's id. A command without a name or a handler throws once
     * reached, keeping what ran before it and leaving the execution open.
     */
    method Execute(main: Cmd, pre: seq<Cmd>, post: seq<Cmd>) returns (r: Result<(), StackError>)
      requires Valid()
      modifies this
      ensures Valid() && handlers == old(handlers)
      ensures main.command == "" ==> r == Failure(CommandRequired) && stack == old(stack) && stackIdx == old(stackIdx) && uid == old(uid) && pending == old(pending)
      ensures main.command != "" ==> uid == (if old(pending).None? then old(uid) + 1 else old(uid))
      ensures main.command != "" ==> pending == (if r.Success? then old(pending) else Some(NextId(old(pending), old(uid))))
      ensures main.command != "" && main.command !in handlers ==> r == Failure(NoHandler(main.command)) && stack == old(stack) && stackIdx == old(stackIdx)
      ensures main.command != "" && main.command in handlers ==>
        var order := pre + [main] + post;
        var n := FirstInvalid(order, handlers);
        && stack == (if n == 0 then old(stack) else old(stack)[..old(stackIdx) + 1] + Stamp(order[..n], NextId(old(pending), old(uid))))
        && stackIdx == old(stackIdx) + n
        && (n == |order| <==> r.Success?)
        && (n < |order| ==> r == Failure(ErrorOf(order[n])))
      ensures r.Success? ==> CanUndo() && !CanRedo()
    {
      if main.command == "" {
        return Failure(CommandRequired);
      }
      stack, stackIdx, uid, pending, r := ExecuteOn(stack, stackIdx, uid, pending, handlers, main, pre, post);
    }

    /** `undo()`: reverts the action at the position and every action before it of the same id. */
    method Undo() returns (reverted: seq<Action>)
      requires Valid()
      modifies this
      ensures Valid()
      ensures stack == old(stack) && handlers == old(handlers) && uid == old(uid) && pending == old(pending)
      ensures stackIdx == UndoTarget(stack, old(stackIdx))
      ensures |reverted| == old(stackIdx) - stackIdx
      ensures forall k :: 0 <= k < |reverted| ==> reverted[k] == stack[old(stackIdx) - k]
    {
      reverted := [];
      if stackIdx < 0 {
        return;
      }
      var idx;
      idx, reverted := UndoScan(stack, stackIdx);
      MoveConsistent(stack, stackIdx, uid, pending);
      stackIdx := idx;
    }

    /** `redo()`: re-executes the action after the position and every following action of the same id. */
    method Redo() returns (redone: seq<Action>)
      requires Valid()
      modifies this
      ensures Valid()
      ensures stack == old(stack) && handlers == old(handlers) && uid == old(uid) && pending == old(pending)
      ensures stackIdx == RedoTarget(stack, old(stackIdx))
      ensures |redone| == stackIdx - old(stackIdx)
      ensures forall k :: 0 <= k < |redone| ==> redone[k] == stack[old(stackIdx) + 1 + k]
    {
      redone := [];
      if stackIdx + 1 >= |stack| {
        return;
      }
      var idx;
      idx, redone := RedoScan(stack, stackIdx);
      MoveConsistent(stack, stackIdx, uid, pending);
      stackIdx := idx;
    }

    /** `clear()`: an empty stack. */
    method Clear()
      modifies this
      requires Valid()
      ensures Valid() && stack == [] && stackIdx == -1
      ensures handlers == old(handlers) && uid == old(uid) && pending == old(pending)
    {
      stack := [];
      stackIdx := -1;
    }
  }

  /**
   * `execute` of a named command on the stack's state: the actions that run
   * are pushed after the position with the execution's id, and a command
   * that throws leaves that id open.
   */
  method ExecuteOn(stack: seq<Action>, stackIdx: int, uid: nat, pending: Option<nat>, handlers: set<string>, main: Cmd, pre: seq<Cmd>, post: seq<Cmd>)
    returns (stack': seq<Action>, stackIdx': int, uid': nat, pending': Option<nat>, r: Result<(), StackError>)
    requires main.command != ""
    requires Consistent(stack, stackIdx, uid, pending)
    ensures Consistent(stack', stackIdx', uid', pending')
    ensures uid' == (if pending.None? then uid + 1 else uid)
    ensures pending' == (if r.Success? then pending else Some(NextId(pending, uid)))
    ensures main.command !in handlers ==> r == Failure(NoHandler(main.command)) && stack' == stack && stackIdx' == stackIdx
    ensures main.command in handlers ==>
      var order := pre + [main] + post;
      var n := FirstInvalid(order, handlers);
      && stack' == (if n == 0 then stack else stack[..stackIdx + 1] + Stamp(order[..n], NextId(pending, uid)))
      && stackIdx' == stackIdx + n
      && (n == |order| <==> r.Success?)
      && (n < |order| ==> r == Failure(ErrorOf(order[n])))
    ensures r.Success? ==> 0 <= stackIdx' && stackIdx' + 1 == |stack'|
  {
    var id := NextId(pending, uid);
    NextIdAbove(stack, stackIdx, uid, pending);
    uid' := if pending.None? then uid + 1 else uid;
    if main.command !in handlers {
      return stack, stackIdx, uid', Some(id), Failure(NoHandler(main.command));
    }
    var order := pre + [main] + post;
    PrefixOrdered(stack, stackIdx, id);
    var pushed, n, res := PushCommands(stack[..stackIdx + 1], order, handlers, id);
    r := res;
    pending' := if res.Success? then pending else Some(id);
    if n > 0 {
      stack', stackIdx' := pushed, |pushed| - 1;
    } else {
      stack', stackIdx' := stack, stackIdx;
    }
  }

  /** The loop of `undo`: walks back over the actions sharing the id of `s[top]`, collecting them. */
  method UndoScan(s: seq<Action>, top: int) returns (idx: int, reverted: seq<Action>)
    requires 0 <= top < |s|
    ensures idx == UndoTarget(s, top)
    ensures |reverted| == top - idx
    ensures forall k :: 0 <= k < |reverted| ==> reverted[k] == s[top - k]
  {
    reverted := [];
    idx := top;
    var id := s[top].id;
    ghost var g := GroupStart(s, top);
    var done := false;
    while !done
      invariant -1 <= idx <= top
      invariant !done ==> idx >= 0 && s[idx].id == id && GroupStart(s, idx) == g
      invariant done ==> idx + 1 == g
      invariant |reverted| == top - idx
      invariant forall k :: 0 <= k < |reverted| ==> reverted[k] == s[top - k]
      decreases idx + (if done then 0 else 1)
    {
      reverted := reverted + [s[idx]];
      idx := idx - 1;
      if idx < 0 || s[idx].id != id {
        done := true;
      }
    }
  }

  /** The loop of `redo`: walks forward over the actions sharing the id of `s[start + 1]`, collecting them. */
  method RedoScan(s: seq<Action>, start: int) returns (idx: int, redone: seq<Action>)
    requires -1 <= start && start + 1 < |s|
    ensures idx == RedoTarget(s, start)
    ensures |redone| == idx - start
    ensures forall k :: 0 <= k < |redone| ==> redone[k] == s[start + 1 + k]
  {
    redone := [];
    idx := start;
    var id := s[start + 1].id;
    ghost var e := GroupEnd(s, start + 1);
    var done := false;
    while !done
      invariant start <= idx < |s|
      invariant !done ==> idx + 1 < |s| && s[idx + 1].id == id && GroupEnd(s, idx + 1) == e
      invariant done ==> idx == e
      invariant |redone| == idx - start
      invariant forall k :: 0 <= k < |redone| ==> redone[k] == s[start + 1 + k]
      decreases |s| - idx + (if done then 0 else 1)
    {
      redone := redone + [s[idx + 1]];
      idx := idx + 1;
      if idx + 1 >= |s| || s[idx + 1].id != id {
        done := true;
      }
    }
  }

  /**
   * The commands of one execution pushed in turn after `base`, all with the
   * id `id`, until one has no name or no handler.
   */
  method PushCommands(base: seq<Action>, order: seq<Cmd>, handlers: set<string>, id: nat)
    returns (s: seq<Action>, n: nat, r: Result<(), StackError>)
    requires forall i, j :: 0 <= i < j < |base| ==> base[i].id <= base[j].id
    requires forall k :: 0 <= k < |base| ==> base[k].id <= id
    ensures n == FirstInvalid(order, handlers)
    ensures s == base + Stamp(order[..n], id)
    ensures n == |order| <==> r.Success?
    ensures n < |order| ==> r == Failure(ErrorOf(order[n]))
    ensures Grouped(s, |s| - 1) && forall k :: 0 <= k < |s| ==> s[k].id <= id
  {
    s := base;
    var i := 0;
    assert order[..0] == [];
    hide FirstInvalid;
    while i < |order| && order[i].command != "" && order[i].command in handlers
      invariant 0 <= i <= |order|
      invariant i <= FirstInvalid(order, handlers)
      invariant s == base + Stamp(order[..i], id)
      invariant Grouped(s, |s| - 1) && forall k :: 0 <= k < |s| ==> s[k].id <= id
    {
      assert order[..i + 1] == order[..i] + [order[i]];
      PushKeepsGrouped(base, order[..i], order[i], id);
      s := base + Stamp(order[..i + 1], id);
      i := i + 1;
    }
    n := i;
    r := if n == |order| then Success(()) else Failure(ErrorOf(order[n]));
  }

  /** The actions up to the position keep their order and ids. */
  lemma PrefixOrdered(s: seq<Action>, idx: int, id: nat)
    requires Grouped(s, idx) && forall k :: 0 <= k < |s| ==> s[k].id <= id
    ensures var base := s[..idx + 1];
      && (forall i, j :: 0 <= i < j < |base| ==> base[i].id <= base[j].id)
      && (forall k :: 0 <= k < |base| ==> base[k].id <= id)
  {
  }

  /** Pushing a command of the running group after `base` keeps the stack grouped. */
  lemma PushKeepsGrouped(base: seq<Action>, done: seq<Cmd>, c: Cmd, id: nat)
    requires forall i, j :: 0 <= i < j < |base| ==> base[i].id <= base[j].id
    requires forall k :: 0 <= k < |base| ==> base[k].id <= id
    ensures var s := base + Stamp(done + [c], id);
      && Grouped(s, |s| - 1)
      && (forall k :: 0 <= k < |s| ==> s[k].id <= id)
  {
    var s := base + Stamp(done + [c], id);
    forall i, j | 0 <= i < j < |s|
      ensures s[i].id <= s[j].id
    {
      if j >= |base| {
        assert s[j].id == id;
        if i < |base| { assert s[i] == base[i]; } else { assert s[i].id == id; }
      } else {
        assert s[i] == base[i] && s[j] == base[j];
      }
    }
    forall k | 0 <= k < |s|
      ensures s[k].id <= id
    {
      if k < |base| { assert s[k] == base[k]; } else { assert s[k].id == id; }
    }
  }
}
