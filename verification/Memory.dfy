// Bytes and blocks of memory.
module Memory {

  type byte = x: int | 0 <= x < 256

  // memcpy to the start of a block
  method Fill(block: array<byte>, data: seq<byte>)
    requires |data| <= block.Length
    modifies block
    ensures block[..|data|] == data && block[|data|..] == old(block[|data|..])
  {
    for k := 0 to |data|
      invariant block[..k] == data[..k] && block[|data|..] == old(block[|data|..])
    {
      block[k] := data[k];
    }
  }
}
