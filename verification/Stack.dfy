/** common/stack.c: a bounded stack in a buffer supplied by the caller. */
module Stacks {
  class Stack<T> {
    const elNum: nat
    var sp: nat
    const dataBuf: array<T>

    /** stack_create. */
    constructor (n: nat, buf: array<T>)
      requires buf.Length == n
      ensures Valid() && elNum == n && dataBuf == buf && Elements() == []
    {
      elNum, sp, dataBuf := n, 0, buf;
    }

    ghost predicate Valid()
      reads this
    {
      dataBuf.Length == elNum && sp <= elNum
    }

    /** The elements, oldest first. */
    ghost function Elements(): (s: seq<T>)
      requires Valid()
      reads this, dataBuf
      ensures |s| == sp
    {
      dataBuf[..sp]
    }

    /** stack_reset_sp. */
    method Reset()
      requires Valid()
      modifies this
      ensures Valid() && Elements() == []
    {
      sp := 0;
    }

    /** stack_push: refused exactly when the buffer is full. */
    method Push(el: T) returns (rc: int)
      requires Valid()
      modifies this, dataBuf
      ensures Valid()
      ensures rc == if |old(Elements())| == elNum then -1 else 0
      ensures Elements() == if rc == 0 then old(Elements()) + [el] else old(Elements())
    {
      if sp == elNum {
        return -1;
      }
      dataBuf[sp] := el;
      sp := sp + 1;
      return 0;
    }

    /** stack_elnum. */
    method ElNum() returns (k: nat)
      requires Valid()
      ensures k == |Elements()|
    {
      k := sp;
    }

    /** stack_pop. */
    method Pop() returns (el: T)
      requires Valid() && Elements() != []
      modifies this
      ensures Valid() && old(Elements()) == Elements() + [el]
    {
      sp := sp - 1;
      el := dataBuf[sp];
    }
  }
}
