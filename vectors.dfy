/** The vector record and constants of vect.h, and the three elementwise
    operations of ops.c over an abstract component type `N`.

    The program's components are C doubles; the model never looks at their
    values, so floating-point arithmetic and `strtod` are passed in as a
    `Lib<N>` record of operations. */
module Vectors {

  /** Number of slots in the store (`MAX_VECTS`). */
  const MAX_VECTS: nat := 10

  /** Size of a name buffer, terminator included (`VNAME_LEN`). */
  const VNAME_LEN: nat := 16

  /** What `char name[VNAME_LEN]` can hold in front of its terminator:
      at most 15 visible characters. */
  type Name = s: string | |s| < VNAME_LEN

  /** The three components `v[0]`, `v[1]`, `v[2]`. */
  datatype Triple<N> = Triple(x: N, y: N, z: N)

  /** One `vect`: a name, three components and the slot's `in_use` flag. */
  datatype Vect<N> = Vect(name: Name, v: Triple<N>, inUse: bool)

  /** What `strtod` reports: how many characters it consumed and the value. */
  datatype Conversion<N> = Conversion(consumed: nat, value: N)

  /** The C library the program relies on: the double 0.0, the three
      arithmetic operators and `strtod`. */
  datatype Lib<!N> = Lib(
    zero: N,
    add: (N, N) -> N,
    sub: (N, N) -> N,
    mul: (N, N) -> N,
    strtod: string -> Conversion<N>)

  /** `v_add`: a copy of `a` whose components are the sums. */
  function Add<N>(lib: Lib<N>, a: Vect<N>, b: Vect<N>): Vect<N>
  {
    a.(v := Triple(lib.add(a.v.x, b.v.x), lib.add(a.v.y, b.v.y), lib.add(a.v.z, b.v.z)))
  }

  /** `v_sub`: a copy of `a` whose components are the differences. */
  function Sub<N>(lib: Lib<N>, a: Vect<N>, b: Vect<N>): Vect<N>
  {
    a.(v := Triple(lib.sub(a.v.x, b.v.x), lib.sub(a.v.y, b.v.y), lib.sub(a.v.z, b.v.z)))
  }

  /** `v_scale`: a copy of `a` whose components are multiplied by `k`. */
  function Scale<N>(lib: Lib<N>, a: Vect<N>, k: N): Vect<N>
  {
    a.(v := Triple(lib.mul(a.v.x, k), lib.mul(a.v.y, k), lib.mul(a.v.z, k)))
  }

  /** The results of the three operations are copies of their first operand:
      they keep its name and its `in_use` flag. */
  lemma ResultsCopyFirstOperand<N>(lib: Lib<N>, a: Vect<N>, b: Vect<N>, k: N)
    ensures Add(lib, a, b).name == a.name && Add(lib, a, b).inUse == a.inUse
    ensures Sub(lib, a, b).name == a.name && Sub(lib, a, b).inUse == a.inUse
    ensures Scale(lib, a, k).name == a.name && Scale(lib, a, k).inUse == a.inUse
  {
  }
}
