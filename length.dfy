/** safe_string_length: the logical length of a managed string. */
module LengthQuery {
  import opened Types

  /** The value a length query returns, paired with the error code it
      records in the last-error cell. */
  datatype LengthResult = LengthResult(value: nat, error: Error)

  /** For a valid handle, the number of characters before the terminator
      slot, recording NoError; for an invalid one, EMPTY, recording BadValue.
      Only `valid` and `size` are read; the string is left as it is. */
  function Length(s: SafeString): (r: LengthResult)
    reads s, s.buffer
    requires s.Inv()
    ensures s.valid ==> r.error == NoError && r.value == |s.Contents()|
    ensures s.valid ==> r.value + 1 == s.buffer.Length && s.buffer[r.value] == NUL
    ensures !s.valid ==> r.error == BadValue && r.value == EMPTY
  {
    if s.valid then LengthResult(s.size - 1, NoError) else LengthResult(EMPTY, BadValue)
  }
}
