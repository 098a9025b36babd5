/** libraries/libc/src/string/memmove.c, on one flat memory in which the two buffers may overlap. */
module Memmove {

  /**
   The direction of the copy follows the order of the pointers, so no byte is
   overwritten before it is read (section 7.24.2.2 of ISO/IEC 9899:2011).
   */
  method Move(memory: array<bv8>, dst: nat, src: nat, size: nat)
    requires dst + size <= memory.Length && src + size <= memory.Length
    modifies memory
    ensures memory[dst..dst + size] == old(memory[src..src + size])
    ensures forall k | 0 <= k < memory.Length && !(dst <= k < dst + size) :: memory[k] == old(memory[k])
  {
    if dst < src {
      CopyForward(memory, dst, src, size);
    } else {
      CopyBackward(memory, dst, src, size);
    }
  }

  method CopyForward(memory: array<bv8>, dst: nat, src: nat, size: nat)
    requires dst < src && src + size <= memory.Length
    modifies memory
    ensures memory[dst..dst + size] == old(memory[src..src + size])
    ensures forall k | 0 <= k < memory.Length && !(dst <= k < dst + size) :: memory[k] == old(memory[k])
  {
    var i := 0;
    while i < size
      invariant 0 <= i <= size
      invariant forall k | dst <= k < dst + i :: memory[k] == old(memory[k - dst + src])
      invariant forall k | 0 <= k < memory.Length && !(dst <= k < dst + i) :: memory[k] == old(memory[k])
    {
      memory[dst + i] := memory[src + i];
      i := i + 1;
    }
  }

  method CopyBackward(memory: array<bv8>, dst: nat, src: nat, size: nat)
    requires src <= dst && dst + size <= memory.Length
    modifies memory
    ensures memory[dst..dst + size] == old(memory[src..src + size])
    ensures forall k | 0 <= k < memory.Length && !(dst <= k < dst + size) :: memory[k] == old(memory[k])
  {
    var i := size;
    while i != 0
      invariant 0 <= i <= size
      invariant forall k | dst + i <= k < dst + size :: memory[k] == old(memory[k - dst + src])
      invariant forall k | 0 <= k < memory.Length && !(dst + i <= k < dst + size) :: memory[k] == old(memory[k])
    {
      memory[dst + i - 1] := memory[src + i - 1];
      i := i - 1;
    }
  }
}
