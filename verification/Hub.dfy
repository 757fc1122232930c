/** The HUB's view of one GARD, and the protocol constants shared with the firmware. */
module Hub {
  import opened Bytes
  import opened UartBus

  const SEND_DATA: byte := 0x5D
  const GARD_APP_LAYER_SEND: byte := 0x07
  const ORIGINATOR_SYNC: byte := 0x0C
  const ORIGINATOR_ID_GARD: byte := 0xCD
  const HMI_METADATA: byte := 0x07
  const QR_CODE_IMAGE: byte := 0x0A

  datatype Option<+T> = None | Some(value: T)

  class Gard {
    var activeBus: Bus?
    var commandExecution: bool

    constructor (bus: Bus?)
      ensures activeBus == bus && !commandExecution
    {
      activeBus, commandExecution := bus, false;
    }
  }
}
