/** memmove.c: copying within one memory, whatever the overlap. */
module Memmove {
  import opened LittleEndian

  /** Memory `m` after memmove, as section 7.24.2.2 of ISO C11 has it: as if through a copy. */
  function Moved(m: seq<byte>, dst: nat, src: nat, size: nat): (n: seq<byte>)
    requires dst + size <= |m| && src + size <= |m|
    ensures |n| == |m|
  {
    m[..dst] + m[src..src + size] + m[dst + size..]
  }

  method Memmove(mem: array<byte>, dst: nat, src: nat, size: nat) returns (ret: nat)
    requires dst + size <= mem.Length && src + size <= mem.Length
    modifies mem
    ensures ret == dst
    ensures mem[dst..dst + size] == old(mem[src..src + size])
    ensures forall k :: 0 <= k < mem.Length && !(dst <= k < dst + size) ==> mem[k] == old(mem[k])
    ensures mem[..] == Moved(old(mem[..]), dst, src, size)
  {
    if dst < src {
      for i := 0 to size
        invariant forall k :: 0 <= k < mem.Length ==>
                                mem[k] == if dst <= k < dst + i then old(mem[src + (k - dst)]) else old(mem[k])
      {
        mem[dst + i] := mem[src + i];
      }
    } else {
      for i := size downto 0
        invariant forall k :: 0 <= k < mem.Length ==>
                                mem[k] == if dst + i <= k < dst + size then old(mem[src + (k - dst)]) else old(mem[k])
      {
        mem[dst + i] := mem[src + i];
      }
    }
    ret := dst;
  }

  /** Moving there and back restores the source, even where the two ranges overlap. */
  lemma MovedBack(m: seq<byte>, dst: nat, src: nat, size: nat)
    requires dst + size <= |m| && src + size <= |m|
    ensures var n := Moved(Moved(m, dst, src, size), src, dst, size);
            && n[src..src + size] == m[src..src + size]
            && forall k :: 0 <= k < |m| && !(src <= k < src + size) && !(dst <= k < dst + size) ==> n[k] == m[k]
  {
    var t := Moved(m, dst, src, size);
    assert t[dst..dst + size] == m[src..src + size];
    var n := Moved(t, src, dst, size);
    assert n[src..src + size] == t[dst..dst + size];
  }
}
