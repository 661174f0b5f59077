/** Moving overlapping bytes in memory. */
module Memory {
  import opened Bytes

  /** Memory m after the n bytes at src were copied to dst. */
  function Moved(m: seq<byte>, dst: nat, src: nat, n: nat): (r: seq<byte>)
    requires dst + n <= |m| && src + n <= |m|
    ensures |r| == |m|
  {
    m[..dst] + m[src..src + n] + m[dst + n..]
  }

  /** Whatever the overlap, all bytes of the source arrive and nothing else changes. */
  method Memmove(mem: array<byte>, dst: nat, src: nat, n: nat) returns (r: nat)
    requires dst + n <= mem.Length && src + n <= mem.Length
    modifies mem
    ensures mem[..] == Moved(old(mem[..]), dst, src, n) && r == dst
    ensures forall i :: dst <= i < dst + n ==> mem[i] == old(mem[i - dst + src])
    ensures forall i :: 0 <= i < mem.Length && (i < dst || dst + n <= i) ==> mem[i] == old(mem[i])
  {
    hide Moved;
    ghost var m := mem[..];
    var s, d, k := src, dst, n;
    MovedNone(m, dst, src);
    MovedNone(m, dst + n, src + n);
    if s < d && s + n > d {
      s, d := s + n, d + n;
      while k > 0
        invariant 0 <= k <= n && s == src + k && d == dst + k && mem[..] == Moved(m, d, s, n - k)
      {
        MoveDown(m, d, s, n - k);
        assert mem[s - 1] == mem[..][s - 1];
        k, d, s := k - 1, d - 1, s - 1;
        mem[d] := mem[s];
      }
    } else {
      while k > 0
        invariant 0 <= k <= n && s == src + (n - k) && d == dst + (n - k) && mem[..] == Moved(m, dst, src, n - k)
      {
        MoveUp(m, dst, src, n - k);
        assert mem[s] == mem[..][s];
        mem[d] := mem[s];
        k, d, s := k - 1, d + 1, s + 1;
      }
    }
    MovedAt(m, dst, src, n);
    assert forall i :: 0 <= i < mem.Length ==> mem[i] == mem[..][i];
    return dst;
  }

  lemma MovedAt(m: seq<byte>, dst: nat, src: nat, n: nat)
    requires dst + n <= |m| && src + n <= |m|
    ensures forall i :: dst <= i < dst + n ==> Moved(m, dst, src, n)[i] == m[i - dst + src]
    ensures forall i :: 0 <= i < |m| && (i < dst || dst + n <= i) ==> Moved(m, dst, src, n)[i] == m[i]
  {}

  lemma MovedNone(m: seq<byte>, dst: nat, src: nat)
    requires dst <= |m| && src <= |m|
    ensures Moved(m, dst, src, 0) == m
  {}

  /** From the top, source bytes below the moved ones are still in place. */
  lemma MoveDown(m: seq<byte>, d: nat, s: nat, j: nat)
    requires 0 < s < d && d + j <= |m|
    ensures var t := Moved(m, d, s, j); Moved(m, d - 1, s - 1, j + 1) == t[d - 1 := t[s - 1]]
  {}

  /** From the bottom, source bytes above the moved ones are still in place. */
  lemma MoveUp(m: seq<byte>, dst: nat, src: nat, j: nat)
    requires dst + j < |m| && src + j < |m| && (dst <= src || src + j < dst)
    ensures var t := Moved(m, dst, src, j); Moved(m, dst, src, j + 1) == t[dst + j := t[src + j]]
  {}

  /** Moving bytes away and back restores them, even if the two regions overlap; outside both nothing has changed. */
  lemma ThereAndBack(m: seq<byte>, dst: nat, src: nat, n: nat)
    requires dst + n <= |m| && src + n <= |m|
    ensures var r := Moved(Moved(m, dst, src, n), src, dst, n);
      && r[src..src + n] == m[src..src + n]
      && forall i :: 0 <= i < |m| && !(src <= i < src + n) && !(dst <= i < dst + n) ==> r[i] == m[i]
  {
    var t := Moved(m, dst, src, n);
    assert t[dst..dst + n] == m[src..src + n];
    assert Moved(t, src, dst, n)[src..src + n] == t[dst..dst + n];
  }
}
