/** What passes between the simulated I2C controller and the parts on its bus. */
module I2cBus {
  import opened Widths

  /** The messages an I2C master on this bus sends. */
  datatype Message =
    | Start(addr: uint8)
    | Stop
    | Write(data: uint8)
    | Read

  datatype Reply = Nothing | Ack | Data(data: uint8)
}
