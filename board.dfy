/** `readFromBoard`'s accumulation of the bytes drained from the link. */
module Board {
  import opened Growth

  /** The buffer readFromBoard starts with holds 64 bytes besides the terminator. */
  const InitialSize: nat := 64

  /**
   * The loop of readFromBoard over the bytes the link makes available, in
   * order: each byte is stored at `size`, after the buffer has doubled if it
   * was full, and the terminator follows the last one. The result holds
   * exactly the drained bytes, and the buffer has the smallest doubled size
   * that holds them.
   */
  method Accumulate(bytes: seq<char>) returns (msg: array<char>, size: nat, maxSize: nat)
    ensures size == |bytes| <= maxSize && msg.Length == maxSize + 1
    ensures msg[..size] == bytes && msg[size] == '\0'
    ensures maxSize == CapacityFor(InitialSize, size)
  {
    msg := new char[InitialSize + 1];
    size := 0;
    maxSize := InitialSize;
    while size < |bytes|
      invariant size <= |bytes|
      invariant fresh(msg) && msg.Length == maxSize + 1
      invariant Tight(InitialSize, size, maxSize)
      invariant msg[..size] == bytes[..size]
    {
      var letter := bytes[size];
      if size >= maxSize {
        var grown := new char[maxSize * 2 + 1];
        forall i | 0 <= i < maxSize {
          grown[i] := msg[i];
        }
        msg := grown;
        maxSize := maxSize * 2;
      }
      msg[size] := letter;
      size := size + 1;
    }
    msg[size] := '\0';
    TightUnique(InitialSize, size, maxSize);
  }
}
