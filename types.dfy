/** The shared vocabulary of the safe string layer: the error kinds kept in
    the process-wide last-error cell, the terminator, the EMPTY sentinel,
    MIN, and the managed string handle itself. */
module Types {

  /** The closed set of outcomes an operation records in the last-error cell. */
  datatype Error = NoError | NullPointer | BadValue | MemAlloc

  /** The terminator written after the last logical character. */
  const NUL: char := '\0'

  /** The sentinel a length query returns for an invalid handle
      (SAFE_STRING_EMPTY); its numeric value is not part of this model. */
  const EMPTY: nat

  /** The two-argument minimum the source takes from MIN. */
  function Min(a: nat, b: nat): (r: nat)
    ensures r <= a && r <= b
    ensures r == a || r == b
  {
    if a <= b then a else b
  }

  /** The process-wide last-error cell; every operation overwrites `code`. */
  class FaultRegister {
    var code: Error

    constructor ()
      ensures code == NoError
    {
      code := NoError;
    }
  }

  /** A managed string handle: `buffer` is s_string and `size` is s_length,
      which counts the terminator slot. `valid` stands for the external
      validity predicate (a live, non-deleted handle). */
  class SafeString {
    var buffer: array<char>
    var size: nat
    var valid: bool

    /** What a valid handle guarantees: the buffer holds exactly `size`
        characters, the last of which is the terminator. Nothing is known
        of an invalid handle. */
    ghost predicate Inv()
      reads this, buffer
    {
      valid ==> 1 <= size == buffer.Length && buffer[size - 1] == NUL
    }

    /** The logical characters of a valid handle, terminator excluded. */
    ghost function Contents(): (s: seq<char>)
      reads this, buffer
      requires Inv() && valid
      ensures |s| + 1 == size
    {
      buffer[..size - 1]
    }

    /** A valid handle holding `chars`; construction itself is outside the
        modelled core and stands for whatever created the handle. */
    constructor (chars: seq<char>)
      ensures valid && Inv() && Contents() == chars && fresh(buffer)
    {
      buffer := new char[|chars| + 1](i requires 0 <= i <= |chars| => if i < |chars| then chars[i] else NUL);
      size := |chars| + 1;
      valid := true;
    }
  }
}
