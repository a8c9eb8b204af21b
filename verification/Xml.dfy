/** Documents as libxml2 hands them over: the root's kind, its attributes and its children in document order. */
module Xml {
  import opened Bytes

  const NBUS_TYPE_EVENT := 0
  const NBUS_TYPE_REQUEST := 1
  const NBUS_TYPE_RESPONSE := 2

  const NBUS_CMD_JOIN := 0
  const NBUS_CMD_DROP := 1
  const NBUS_CMD_LIST := 2
  const NBUS_CMD_REGISTER := 4
  const NBUS_CMD_SAVE_USB := 6
  const NBUS_CMD_LOGCAT_USB := 7

  const NBUS_EVENT_SET_DEFAULT_NODE := 3

  datatype Argument = Argument(name: string, value: string)

  /** What parseXML recognises; every other root yields no document at all. */
  datatype Document =
    | Bus(kind: int, id: int, node: string, syncId: int, buffer: string, nodes: seq<string>)
    | Event(length: nat)
    | Command(kind: int, arguments: seq<Argument>)

  /** The document of a text, the text of a document, and the text of the READY event. */
  datatype Codec = Codec(parse: seq<byte> -> Option<Document>, render: Document -> seq<byte>, ready: seq<byte>)
}
