/** Small shared vocabulary: the 8-bit texel type and an Option type. */
module Common {

  /** An unsigned 8-bit value, as stored in glyph bitmaps, distance fields and the atlas. */
  type byte = x: int | 0 <= x < 256

  datatype Option<+T> = None | Some(value: T) {
    function GetOr(default: T): T {
      match this
      case Some(v) => v
      case None => default
    }
  }
}
