/** The handler's one receive buffer, which is overwritten frame by frame and never cleared. */
module ReceiveBuffer {
  import opened Endian
  import opened Header

  /** The buffer after `rx` was received into it: NUL after the last byte, or over the last one
      when there is no room. */
  function Received(buffer: seq<Byte>, rx: seq<Byte>): (r: seq<Byte>)
    requires |buffer| == FRAME && |rx| <= FRAME
    ensures |r| == FRAME
  {
    if |rx| < FRAME then rx + [0] + buffer[|rx| + 1..] else rx
  }

  lemma ReceivedStart(buffer: seq<Byte>, rx: seq<Byte>)
    requires |buffer| == FRAME && |rx| <= FRAME
    ensures Received(buffer, rx)[..|rx|] == rx
  {
  }

  /** The NUL register_recipe writes behind a reply of n bytes, or over its last byte. */
  function Terminated(buffer: seq<Byte>, n: nat): (r: seq<Byte>)
    requires |buffer| == FRAME
    ensures |r| == FRAME
  {
    buffer[(if n < FRAME then n else FRAME - 1) := 0]
  }
}
