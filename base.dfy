/** Machine types shared by the local reference table model. */
module Base {

  /** An unsigned 32-bit integer, the width of `uint32_t`. */
  type u32 = x: int | 0 <= x < 0x1_0000_0000

  const U32_MAX: u32 := 0xFFFF_FFFF

  /** A managed-heap object, known only by identity. */
  type Obj(==)

  /** A possibly-null object pointer: `None` is the null `ObjPtr`. */
  datatype Option<T> = None | Some(value: T)
}
