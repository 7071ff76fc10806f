/** The entity of the IDI interface (kernel/di_defs.h). */
module IdiEntity {
  import opened Machine

  /** A receive buffer: the memory it points to, if any, and the length in use. */
  datatype RBuffer = RBuffer(present: bool, memory: seq<byte>, length: word)

  const IDLE: byte := 0xff

  class Entity {
    var no: byte
    var id: byte
    var req: byte
    var reqCh: byte
    var rc: byte
    var rcCh: byte
    var ind: byte
    var indCh: byte
    var x: seq<seq<byte>>
    var r: seq<RBuffer>
    var rNum: byte
    var rLength: word
    var rnr: byte
    var complete: byte
    var more: byte
    var mInd: byte
    var xCurrent: byte
    var xOffset: word
    var rCurrent: byte
    var rOffset: word
  }
}
