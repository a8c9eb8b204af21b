/** Message kinds and the value of a queued bus command. */
module Messages {
  import opened Bytes

  const GLOBAL_MESSAGE := 0
  const LOCAL_MESSAGE := 1
  const KILL_MESSAGE := 3
  const SETUP_MESSAGE := 4
  const BC_LOCAL_MESSAGE := 5
  const JSON_MESSAGE := 10
  const BC_JSON_MESSAGE := 11
  const BC_MICOM_MESSAGE := 13
  const NONE_MESSAGE := 15

  /** The value of an NBUS_CMD: its payload bytes and its tags. */
  datatype Item = Item(payload: seq<byte>, cmd: int, kind: int) {
    /** NBUS_CMD::valid: a payload pointer exists exactly when the payload is not empty. */
    predicate HasData() { payload != [] }
  }

  predicate IsBroadcastKind(kind: int) {
    kind == BC_LOCAL_MESSAGE || kind == BC_JSON_MESSAGE || kind == BC_MICOM_MESSAGE
  }
}
