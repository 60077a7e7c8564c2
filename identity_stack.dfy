// The native SDK's stack of call contexts: the identity of the program
// currently running is the one on top.

module NativeHelpers {
  /**
   * A program identifier; its definition is not part of this model, so it
   * is represented by an integer whose default is 0.
   */
  type ProgramIdentifier = int

  const DEFAULT_IDENTIFIER: ProgramIdentifier := 0

  /** IdentityStack: a Vec of identifiers, most recent last. */
  class IdentityStack {
    var stack: seq<ProgramIdentifier>

    /** IdentityStack::default: the empty stack. */
    constructor ()
      ensures stack == []
    {
      stack := [];
    }

    /** add_identity: push the identifier on top. */
    method AddIdentity(id: ProgramIdentifier)
      modifies this
      ensures stack == old(stack) + [id]
    {
      stack := stack + [id];
    }

    /** top_identity: the identifier on top, or the default when empty. */
    function TopIdentity(): (r: ProgramIdentifier)
      reads this
      ensures stack == [] ==> r == DEFAULT_IDENTIFIER
      ensures stack != [] ==> r == stack[|stack| - 1]
    {
      Top(stack)
    }

    /** rm_identity: truncate to one less than the length, saturating at zero. */
    method RmIdentity()
      modifies this
      ensures stack == Pop(old(stack))
    {
      stack := stack[..Saturating(|stack|)];
    }
  }

  /** usize::saturating_sub(1). */
  function Saturating(n: nat): (r: nat)
    ensures n == 0 ==> r == 0
    ensures n > 0 ==> r + 1 == n
  {
    if n == 0 then 0 else n - 1
  }

  /** The top of a stack given as a sequence, as top_identity reads it. */
  function Top(s: seq<ProgramIdentifier>): ProgramIdentifier
  {
    if s == [] then DEFAULT_IDENTIFIER else s[|s| - 1]
  }

  /** The stack after rm_identity. */
  function Pop(s: seq<ProgramIdentifier>): (r: seq<ProgramIdentifier>)
    ensures s == [] ==> r == []
    ensures s != [] ==> r + [s[|s| - 1]] == s
  {
    s[..Saturating(|s|)]
  }

  /** Pushing then removing restores the stack, and the top after a push is the pushed id. */
  lemma PushThenPop(s: seq<ProgramIdentifier>, id: ProgramIdentifier)
    ensures Pop(s + [id]) == s
    ensures Top(s + [id]) == id
  {
    assert (s + [id])[..|s|] == s;
  }

  /** Removing from the empty stack is a no-op, and its top is the default. */
  lemma PopEmpty()
    ensures Pop([]) == [] && Top([]) == DEFAULT_IDENTIFIER
  {
  }

  /**
   * A call into another program and its return: add_identity then
   * rm_identity leaves the stack and the current identity as they were,
   * and during the call the current identity is the callee.
   */
  method CallAndReturn(s: IdentityStack, callee: ProgramIdentifier) returns (during: ProgramIdentifier)
    modifies s
    ensures during == callee
    ensures s.stack == old(s.stack) && s.TopIdentity() == old(s.TopIdentity())
  {
    s.AddIdentity(callee);
    during := s.TopIdentity();
    s.RmIdentity();
    PushThenPop(old(s.stack), callee);
  }
}
