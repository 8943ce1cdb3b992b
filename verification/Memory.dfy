/** One flat memory of limbs; a pointer is an index, so operands may overlap as they may in C. */
module Memory {
  import opened Limbs

  predicate Inside(mem: array<Limb>, p: nat, n: nat) {
    p + n <= mem.Length
  }

  /** Writing r[i] after reading a[i], for ascending i < n, never overwrites a limb still to be read. */
  predicate Ascending(r: nat, a: nat, n: nat) {
    r <= a || a + n <= r
  }

  predicate Disjoint(p: nat, m: nat, q: nat, n: nat) {
    p + m <= q || q + n <= p
  }
}
