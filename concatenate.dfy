/** safe_string_concatenate_limit and safe_string_concatenate: append (a
    prefix of) one managed string to another, growing the destination. */
module Concatenation {
  import opened Types
  import opened LengthQuery

  /** The logical content a successful limited concatenation leaves in the
      destination: its old characters followed by at most `limit` characters
      of the source. */
  function Appended(d: seq<char>, s: seq<char>, limit: nat): seq<char>
  {
    d + s[..Min(limit, |s|)]
  }

  /** The buffer after the first `n` rounds of the copy loop, round `j`
      writing `src[j]` at position `at + j`. */
  function CopyInto(buf: seq<char>, at: nat, src: seq<char>, n: nat): (r: seq<char>)
    requires n <= |src| && at + n <= |buf|
    ensures |r| == |buf|
  {
    if n == 0 then buf else CopyInto(buf, at, src, n - 1)[at + n - 1 := src[n - 1]]
  }

  /** Copying index by index splices the first `n` source characters into
      the buffer at `at` and leaves every other position alone. */
  lemma {:induction false} CopyIntoSplices(buf: seq<char>, at: nat, src: seq<char>, n: nat)
    requires n <= |src| && at + n <= |buf|
    ensures CopyInto(buf, at, src, n) == buf[..at] + src[..n] + buf[at + n..]
  {
    if n > 0 {
      CopyIntoSplices(buf, at, src, n - 1);
      var prev := buf[..at] + src[..n - 1] + buf[at + n - 1..];
      assert prev[at + n - 1 := src[n - 1]] == buf[..at] + src[..n] + buf[at + n..];
    }
  }

  /** Writing `c` just after the `n` spliced-in characters puts it between
      them and the rest of the buffer. */
  lemma TerminateSplice(buf: seq<char>, at: nat, chars: seq<char>, n: nat, c: char)
    requires n <= |chars| && at + n < |buf|
    ensures (buf[..at] + chars[..n] + buf[at + n..])[at + n := c]
         == buf[..at] + chars[..n] + [c] + buf[at + n + 1..]
  {
  }

  /** The outcome of a successful realloc to `n` characters: a new buffer
      whose first characters are those of the old one; what follows them is
      unspecified. */
  method Realloc(buf: array<char>, n: nat) returns (grown: array<char>)
    requires buf.Length <= n
    ensures fresh(grown) && grown.Length == n && grown[..buf.Length] == buf[..]
  {
    grown := new char[n];
    forall k | 0 <= k < buf.Length {
      grown[k] := buf[k];
    }
  }

  /** The copy loop and the terminator write of safe_string_concatenate_limit:
      `count` characters of `src`, read index by index, are written into
      `buffer` from position `at`, then the terminator after them. `src` may
      already own `buffer` (destination and source are one handle); its reads
      then come from the prefix below `at`, which the loop never writes. */
  method CopyChars(buffer: array<char>, at: nat, src: SafeString, count: nat, ghost chars: seq<char>)
    requires at + count < buffer.Length && count <= |chars|
    requires count <= src.buffer.Length && src.buffer[..count] == chars[..count]
    requires src.buffer == buffer ==> count <= at
    modifies buffer
    ensures buffer[..] == old(buffer[..at]) + chars[..count] + [NUL] + old(buffer[at + count + 1..])
  {
    ghost var start := buffer[..];
    var i, j := at, 0;
    while i < at + count
      invariant i == at + j && j <= count
      invariant buffer[..] == CopyInto(start, at, chars, j)
      invariant src.buffer[..count] == chars[..count]
    {
      assert src.buffer[j] == chars[j];
      buffer[i] := src.buffer[j];
      i, j := i + 1, j + 1;
    }
    CopyIntoSplices(start, at, chars, count);
    ghost var copied := buffer[..];
    buffer[i] := NUL;
    assert buffer[..] == copied[at + count := NUL];
    TerminateSplice(start, at, chars, count, NUL);
  }

  /** The successful-realloc path of safe_string_concatenate_limit: the
      destination's storage becomes a buffer of old length + count + 1
      characters, its size field is set to match, and `count` characters of
      the source follow its old characters, then the terminator. */
  method GrowAndAppend(dest: SafeString, src: SafeString, count: nat)
    requires dest.Inv() && src.Inv() && dest.valid && src.valid
    requires count <= src.size - 1
    modifies dest
    ensures dest.Inv() && src.Inv() && dest.valid && fresh(dest.buffer)
    ensures unchanged(old(dest.buffer), old(src.buffer))
    ensures src != dest ==> unchanged(src)
    ensures dest.size == old(dest.size) + count
    ensures dest.buffer[..] == old(dest.Contents()) + old(src.Contents())[..count] + [NUL]
  {
    ghost var oldDest := dest.Contents();
    ghost var oldSrc := src.Contents();
    var oldLength := Length(dest).value;
    var grown := Realloc(dest.buffer, oldLength + count + 1);
    assert grown[..oldLength] == oldDest;
    dest.buffer := grown;
    dest.size := oldLength + count + 1;
    CopyChars(grown, oldLength, src, count, oldSrc);
    assert grown[..] == oldDest + oldSrc[..count] + [NUL];
  }

  /** safe_string_concatenate_limit. `allocSucceeds` is the outcome of the
      realloc call. Both handles may be the same object. */
  method ConcatenateLimit(dest: SafeString, src: SafeString, limit: nat, allocSucceeds: bool, fault: FaultRegister)
    requires dest.Inv() && src.Inv()
    modifies dest, fault
    ensures dest.Inv() && src.Inv()
    // No buffer that existed before the call is written: src is only read.
    ensures unchanged(old(dest.buffer), old(src.buffer))
    ensures src != dest ==> unchanged(src)
    ensures !(old(dest.valid) && old(src.valid)) ==> fault.code == NullPointer && unchanged(dest)
    ensures old(dest.valid) && old(src.valid) && !allocSucceeds ==>
      fault.code == MemAlloc && unchanged(dest)
    ensures old(dest.valid) && old(src.valid) && allocSucceeds ==>
      fault.code == NoError && dest.valid && fresh(dest.buffer) &&
      dest.size == old(dest.size) + Min(limit, old(src.size) - 1) &&
      dest.Contents() == Appended(old(dest.Contents()), old(src.Contents()), limit) &&
      dest.buffer[..] == dest.Contents() + [NUL]
  {
    if dest.valid && src.valid {
      var srcLength := Length(src);
      fault.code := srcLength.error;
      var count := Min(limit, srcLength.value);
      var destLength := Length(dest);
      fault.code := destLength.error;
      if allocSucceeds {
        GrowAndAppend(dest, src, count);
        fault.code := NoError;
      } else {
        fault.code := MemAlloc;
      }
    } else {
      fault.code := NullPointer;
    }
  }

  /** safe_string_concatenate: the limited variant with the limit set to the
      source's full length, after the same validity check. */
  method Concatenate(dest: SafeString, src: SafeString, allocSucceeds: bool, fault: FaultRegister)
    requires dest.Inv() && src.Inv()
    modifies dest, fault
    ensures dest.Inv() && src.Inv()
    ensures unchanged(old(dest.buffer), old(src.buffer))
    ensures src != dest ==> unchanged(src)
    ensures !(old(dest.valid) && old(src.valid)) ==> fault.code == NullPointer && unchanged(dest)
    ensures old(dest.valid) && old(src.valid) && !allocSucceeds ==>
      fault.code == MemAlloc && unchanged(dest)
    ensures old(dest.valid) && old(src.valid) && allocSucceeds ==>
      fault.code == NoError && dest.valid && fresh(dest.buffer) &&
      dest.size == old(dest.size) + old(src.size) - 1 &&
      dest.Contents() == old(dest.Contents()) + old(src.Contents()) &&
      dest.buffer[..] == dest.Contents() + [NUL]
  {
    if dest.valid && src.valid {
      var srcLength := Length(src);
      fault.code := srcLength.error;
      ConcatenateLimit(dest, src, srcLength.value, allocSucceeds, fault);
      FullLimitAppendsAll(old(dest.Contents()), old(src.Contents()));
    } else {
      fault.code := NullPointer;
    }
  }

  /** With the limit set to the source's length, the whole source is appended. */
  lemma FullLimitAppendsAll(d: seq<char>, s: seq<char>)
    ensures Appended(d, s, |s|) == d + s
  {
  }

  /** What a successful limited concatenation leaves, position by position:
      the old characters first, then exactly min(limit, |s|) characters of
      the source in order. */
  lemma AppendedShape(d: seq<char>, s: seq<char>, limit: nat)
    ensures |Appended(d, s, limit)| == |d| + Min(limit, |s|)
    ensures Appended(d, s, limit)[..|d|] == d
    ensures forall j :: 0 <= j < Min(limit, |s|) ==> Appended(d, s, limit)[|d| + j] == s[j]
  {
  }

  /** A limit larger than the source copies the whole source and nothing
      more: it has the effect of the unlimited variant. */
  lemma LimitClamp(d: seq<char>, s: seq<char>, limit: nat)
    requires limit >= |s|
    ensures Appended(d, s, limit) == Appended(d, s, |s|) == d + s
  {
  }

  /** A limit within the source copies exactly its first `k` characters. */
  lemma LimitTruncation(d: seq<char>, s: seq<char>, k: nat)
    requires k <= |s|
    ensures Appended(d, s, k) == d + s[..k]
  {
  }

  /** An empty source or a zero limit leaves the logical content as it was
      (the buffer is still reallocated and the terminator rewritten). */
  lemma EmptyAppendKeeps(d: seq<char>, s: seq<char>, limit: nat)
    requires s == [] || limit == 0
    ensures Appended(d, s, limit) == d
  {
  }

  /** The content after successive limited concatenations of `s`, one per
      element of `limits`, each succeeding. */
  function AppendEach(d: seq<char>, s: seq<char>, limits: seq<nat>): seq<char>
    decreases |limits|
  {
    if limits == [] then d else AppendEach(Appended(d, s, limits[0]), s, limits[1..])
  }

  /** Concatenating an empty source any number of times, with any limits,
      leaves the content unchanged. */
  lemma {:induction false} RepeatedEmptyAppendKeeps(d: seq<char>, limits: seq<nat>)
    ensures AppendEach(d, [], limits) == d
  {
    if limits != [] {
      EmptyAppendKeeps(d, [], limits[0]);
      RepeatedEmptyAppendKeeps(d, limits[1..]);
    }
  }

  /** The worked examples: "foo" with "bar"; "foo" with "barbaz" limited to 3;
      and "foo" with "barbaz" limited to 100, clamped to the source. */
  lemma Examples()
    ensures Appended("foo", "bar", |"bar"|) == "foobar"
    ensures Appended("foo", "barbaz", 3) == "foobar"
    ensures Appended("foo", "barbaz", 100) == "foobarbaz"
  {
  }
}
