/** Values shared by the link parser, the range fetcher and the batch sender. */
module Common {

  datatype Option<T> = None | Some(value: T)

  /** What the messaging client answers to one request: a normal result, a
      FloodWait carrying the number of seconds to wait, or any other exception. */
  datatype Reply = Ok | Flood(seconds: nat) | Fail

  /** A fetched message: its per-chat id and its optional text and caption. The
      transferable payload itself is opaque and is not modelled. */
  datatype Message = Message(id: nat, text: Option<string>, caption: Option<string>)

  /** Python truthiness of an optional string: present and non-empty. */
  predicate Truthy(s: Option<string>) {
    s.Some? && s.value != ""
  }

  /** The text-only substitute sent when copying a message fails:
      `message.text or message.caption`, or nothing when both are falsy. */
  function Fallback(m: Message): Option<string> {
    if Truthy(m.text) then m.text
    else if Truthy(m.caption) then m.caption
    else None
  }
}
