/** The codec's error kinds. */
module Errors {
  import opened Modbus

  datatype Error =
    | ModbusErr(kind: ErrorKind)  // the Modbus layer refused to build or accept a frame
    | NoRequest                   // declared by the codec but never produced
    | ResponseParseErr            // a buffer of the wrong length
}
