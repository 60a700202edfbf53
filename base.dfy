/** Scalar types shared by the favourites list model: the optional value used
    for nullable pointers, the C integer widths the list relies on, and the
    opaque handles the file layer hands out. */
module Base {

  /** A nullable value: `None` stands for a C NULL pointer. */
  datatype Option<+T> = None | Some(value: T)

  /** Largest value of a signed 32-bit `gint`. */
  const MaxGint: int := 0x7fff_ffff

  /** A signed 32-bit `gint` (path indices, row counts, column numbers). */
  type Gint = x: int | -0x8000_0000 <= x <= MaxGint

  /** An unsigned 32-bit `guint` (the model's stamp and its row count). */
  type Guint = x: int | 0 <= x < 0x1_0000_0000

  /** The C conversion of a `gint` to `guint` under the usual arithmetic
      conversions: a negative value wraps around modulo 2^32. */
  function ToUnsigned(x: Gint): (r: Guint)
    ensures 0 <= x ==> r == x
    ensures x < 0 ==> r > MaxGint
  {
    if x < 0 then x + 0x1_0000_0000 else x
  }

  /** A reference to a file object of the file layer. Two handles are equal
      exactly when they refer to the same object. */
  datatype File = File(id: nat)

  /** An icon image loaded by the file layer. */
  datatype Pixbuf = Pixbuf(id: nat)
}
