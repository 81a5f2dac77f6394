/** Self-relative pointers (`ipt_op_t`). A link is stored as the signed
    distance from the link's own address to its target, so it resolves
    correctly wherever the surrounding memory is mapped. Addresses are
    unbounded integers here; `ptrdiff_t` overflow is not modelled. */
module OffsetPtr {

  /** `ipt_op_set`: the displacement stored in a link living at `field`
      that is to denote `target`. */
  function Set(field: int, target: int): (offset: int)
  {
    field - target
  }

  /** `ipt_op_drf`: the address denoted by a link at `field` holding
      `offset`; it is the one target whose link at `field` stores
      `offset`. */
  function Drf(field: int, offset: int): (target: int)
    ensures Set(field, target) == offset
  {
    field - offset
  }

  /** `ipt_op_offset`: the raw stored displacement. */
  function Offset(offset: int): int
  {
    offset
  }

  /** `ipt_add_offset`: undone by `ipt_sub_offset`. */
  function AddOffset(p: int, offset: int): (q: int)
    ensures SubOffset(q, offset) == p
  {
    p + offset
  }

  /** `ipt_sub_offset`. */
  function SubOffset(p: int, offset: int): (q: int)
  {
    p - offset
  }

  /** `ipt_add_offset` and `ipt_sub_offset` undo each other, in either
      order. */
  lemma AddSubInverse(p: int, offset: int)
    ensures SubOffset(AddOffset(p, offset), offset) == p
    ensures AddOffset(SubOffset(p, offset), offset) == p
  {
  }

  /** Resolving right after setting yields the target. */
  lemma SetThenDrf(field: int, target: int)
    ensures Drf(field, Set(field, target)) == target
  {
  }

  /** A displacement written at `field` for `target`, read back at
      `field + d` (the same bytes mapped `d` further on), denotes
      `target + d`. */
  lemma DrfTranslates(field: int, target: int, d: int)
    ensures Drf(field + d, Set(field, target)) == target + d
  {
  }

  /** The stored value depends only on the distance between link and
      target, and `ipt_op_offset` hands it back unchanged. */
  lemma SetDependsOnDistance(field: int, target: int, d: int)
    ensures Set(field + d, target + d) == Set(field, target)
    ensures Offset(Set(field, target)) == field - target
  {
  }

  /** Two targets compare equal exactly when their links, stored at the
      same field, do: "is null" is a test of address equality with the
      sentinel, and it survives relocation. */
  lemma NullTestRelocates(field: int, target: int, sentinel: int, d: int)
    ensures Drf(field + d, Set(field, target)) == sentinel + d <==> target == sentinel
  {
  }
}
