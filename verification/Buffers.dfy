/** The source's counted inputs: a pointer and a length, where the pointer may be missing. */
module Buffers {
  import opened Leb128

  datatype Slice = Missing(length: nat) | Present(data: bytes) {
    function Len(): nat {
      match this
      case Missing(n) => n
      case Present(data) => |data|
    }
  }
}
