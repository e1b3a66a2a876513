// Request ids: a number or a text, src/core/JsonRpc.cpp and include/mcp/JsonRpc.hpp.
module RequestIds {
  import opened Bytes
  import opened JsonValue

  datatype RequestId = IntId(i: int) | TextId(text: bytes)

  // RequestIdToString
  function IdText(id: RequestId): bytes {
    match id
    case IntId(i) => IntText(i)
    case TextId(text) => text
  }
}
