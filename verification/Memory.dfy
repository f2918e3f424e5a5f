/** The C library's block operations on buffers. */
module Memory {
  import opened Allocation

  /** The contents of a buffer after `block` is stored at index `at`. */
  function Splice<T>(s: seq<T>, at: nat, block: seq<T>): (r: seq<T>)
    requires at + |block| <= |s|
    ensures |r| == |s|
  {
    s[..at] + block + s[at + |block|..]
  }

  lemma SpliceAt<T>(s: seq<T>, at: nat, block: seq<T>, i: nat)
    requires at + |block| <= |s| && i < |s|
    ensures Splice(s, at, block)[i] == if at <= i < at + |block| then block[i - at] else s[i]
  {
  }

  /** `memmove`: source and destination may overlap. */
  method Memmove<T>(dst: array<T>, d: nat, src: array<T>, s: nat, n: nat)
    requires d + n <= dst.Length && s + n <= src.Length
    modifies dst
    ensures dst[..] == Splice(old(dst[..]), d, old(src[s..s + n]))
  {
    forall i | 0 <= i < n {
      dst[d + i] := src[s + i];
    }
  }

  /** `memcpy`: the blocks must not overlap. */
  method Memcpy<T>(dst: array<T>, d: nat, src: array<T>, s: nat, n: nat)
    requires d + n <= dst.Length && s + n <= src.Length
    requires dst != src || d + n <= s || s + n <= d
    modifies dst
    ensures dst[..] == Splice(old(dst[..]), d, old(src[s..s + n]))
  {
    Memmove(dst, d, src, s, n);
  }

  /**
   * `realloc` when it succeeds: the common prefix is kept; `fill` stands for what the new tail holds. The old block is
   * given back, and nothing is known any more of what it holds. (An empty block stands for NULL.)
   */
  method Realloc<T>(a: Allocator, old_: array<T>, size: nat, fill: T) returns (p: array<T>)
    modifies old_, a`freed
    ensures fresh(p) && p.Length == size && a.freed == old(a.freed) + {old_}
    ensures forall i :: 0 <= i < size && i < old_.Length ==> p[i] == old(old_[i])
  {
    p := new T[size](i requires 0 <= i < size reads old_ => if i < old_.Length then old_[i] else fill);
    a.freed := a.freed + {old_};
  }
}
