/**
  The parser's backtracking cursor: a stack of saved states as a machine over
  values.  A state is a position and the error met there, if any.  The stack's
  last element is the current state; the mark that names a state is its height
  in the stack.
 */
module Cursor {
  import opened Octets

  datatype Error = Expected(what: Bytes) | TrailingDot | UnknownEncoding(c: Byte) | UnknownCharset

  datatype Frame = Frame(at: nat, err: Option<Error>)

  type Stack = st: seq<Frame> | st != [] witness [Frame(0, None)]

  function Top(st: Stack): Frame { st[|st| - 1] }

  function WithTop(st: Stack, f: Frame): (r: Stack)
    ensures |r| == |st|
  {
    st[|st| - 1 := f]
  }

  /** The cursor moves. */
  function Moved(st: Stack, at: nat): Stack { WithTop(st, Top(st).(at := at)) }

  /** An error is recorded. */
  function Failed(st: Stack, e: Error): Stack { WithTop(st, Top(st).(err := Some(e))) }

  /** A new state at the same position; the error is not carried over. */
  function Marked(st: Stack): Stack { st + [Frame(Top(st).at, None)] }

  /** Back to the state the mark names; an unknown mark does nothing. */
  function Restored(st: Stack, m: int): Stack
  {
    if 1 <= m <= |st| then st[..m] else st
  }

  // ------------------------------------------------------------ transactions

  datatype Op = Move(at: nat) | Fail(err: Error) | Mark | Restore(m: int)

  function Apply(st: Stack, op: Op): Stack
  {
    match op
    case Move(at) => Moved(st, at)
    case Fail(e) => Failed(st, e)
    case Mark => Marked(st)
    case Restore(m) => Restored(st, m)
  }

  function Run(st: Stack, ops: seq<Op>): Stack
    decreases |ops|
  {
    if ops == [] then st else Run(Apply(st, ops[0]), ops[1..])
  }

  /** No restore in the run goes back to the mark `m` or to an older one. */
  predicate Inside(ops: seq<Op>, m: nat)
  {
    forall k :: 0 <= k < |ops| && ops[k].Restore? ==> !(1 <= ops[k].m <= m)
  }

  lemma {:induction false} RunKeepsBelow(st: Stack, ops: seq<Op>, m: nat)
    requires m < |st| && Inside(ops, m)
    ensures m < |Run(st, ops)| && Run(st, ops)[..m] == st[..m]
    decreases |ops|
  {
    if ops != [] {
      var st1 := Apply(st, ops[0]);
      assert m < |st1| && st1[..m] == st[..m];
      RunKeepsBelow(st1, ops[1..], m);
    }
  }

  /**
    A transaction: whatever happens between `mark` and `restore` of that mark,
    as long as nothing goes back to it or to an older mark in between, the
    position, the error and all older states are exactly as before.
   */
  lemma Transaction(st: Stack, ops: seq<Op>)
    requires Inside(ops, |st|)
    ensures Restored(Run(Marked(st), ops), |st|) == st
  {
    RunKeepsBelow(Marked(st), ops, |st|);
    assert Marked(st)[..|st|] == st;
  }

  /** The condition cannot be dropped: after going back to the mark once, a move changes what the mark names. */
  lemma ReuseBreaks(st: Stack, at: nat)
    requires at != Top(st).at
    ensures Restored(Run(Marked(st), [Restore(|st|), Move(at)]), |st|) != st
  {
    var ops := [Restore(|st|), Move(at)];
    assert Marked(st)[..|st|] == st;
    assert ops[0] == Restore(|st|) && Apply(Marked(st), ops[0]) == st;
    assert ops[1..] == [Move(at)] && [Move(at)][1..] == [];
    assert Run(st, [Move(at)]) == Moved(st, at);
  }
}
