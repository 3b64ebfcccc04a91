/** `read_str_from_stream` of the player's `main.c`, with the stream replaced
    by the sequence of characters it yields before end of file: append each
    character to a zero `StringBuilder`, dump it as a C string, free it. */
module ReadStream {
  import opened CString
  import opened CCFuncs

  /** Streams short enough that no reallocation size overflows `size_t`. */
  const MaxStream: nat := 0x8000_0000_0000_0000

  method ReadStr(stream: seq<char>) returns (str: array<char>)
    requires |stream| < MaxStream
    ensures fresh(str)
    ensures str[..] == StrNCpy(stream, |stream|) + [NUL]
    ensures NUL !in stream ==> str[..] == stream + [NUL]
  {
    var sb: StringBuilder := new DynArray<char>(1);
    var i := 0;
    while i < |stream|
      invariant i <= |stream|
      invariant fresh(sb) && fresh(sb.items)
      invariant sb.Valid() && sb.elemSize == 1
      invariant sb.Contents == stream[..i] && sb.count == i
      invariant sb.capacity <= InitCap || sb.capacity <= 2 * sb.count
    {
      AppendCapacityAtMostDouble(sb.count, sb.capacity);
      sb.Append(stream[i]);
      i := i + 1;
    }
    assert stream[..i] == stream;
    str := DumpStr(sb);
    sb.Free();
  }
}
