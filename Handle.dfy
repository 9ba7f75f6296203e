/** Handle: the (offset, version) pair the pools give out for a slot. */
module Handles {
  /** handle_ofs_null: the largest size_t. */
  const HandleOfsNull: nat := 0xFFFF_FFFF_FFFF_FFFF

  /** The values of a 64-bit size_t. */
  type SizeT = x: nat | x <= 0xFFFF_FFFF_FFFF_FFFF

  /** The values of a uint16_t. */
  type U16 = x: nat | x < 0x1_0000

  /** ofs is a size_t byte offset, version a uint16. */
  datatype Handle = Handle(ofs: SizeT, version: U16)

  /** A default-constructed handle: the null offset and version 0. */
  function NullHandle(): (h: Handle)
    ensures h.ofs == HandleOfsNull && h.version == 0
    ensures !IsValid(h)
  {
    Handle(HandleOfsNull, 0)
  }

  /** reset: the handle becomes the default null handle, whatever it held. */
  function Reset(h: Handle): (r: Handle)
    ensures r == NullHandle()
    ensures !IsValid(r) && Equals(r, NullHandle())
  {
    Handle(HandleOfsNull, 0)
  }

  /** operator==: the offsets are compared first, then the versions. */
  predicate Equals(a: Handle, b: Handle)
    ensures Equals(a, b) <==> a.ofs == b.ofs && a.version == b.version
    ensures Equals(a, b) <==> a == b
  {
    if a.ofs != b.ofs then false
    else if a.version != b.version then false
    else true
  }

  /** operator bool: a handle is set when its offset is not the null offset. */
  predicate IsValid(h: Handle)
  {
    h.ofs != HandleOfsNull
  }

  /** The version plays no part in whether a handle is set. */
  lemma ValidIgnoresVersion(h: Handle, v: U16)
    ensures IsValid(Handle(h.ofs, v)) == IsValid(h)
    ensures IsValid(h) <==> !Equals(Handle(h.ofs, 0), NullHandle())
  {
  }
}
