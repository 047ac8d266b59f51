# Safe string length and concatenation, modelled in Dafny

This project models the core of a small C "safe string" layer. A string
handle owns a heap buffer of characters (`s_string`) and a size field
(`s_length`). The size counts the terminator slot, so the logical length is
`s_length - 1`. Every operation overwrites a process-wide last-error cell.
The model covers:

- the length query `safe_string_length`;
- the limited concatenation `safe_string_concatenate_limit`: it checks both
  handles, clamps the limit to the source length, grows the destination to
  old length + count + 1, copies index by index and writes the terminator;
- the unlimited concatenation `safe_string_concatenate`, which checks both
  handles and delegates with the limit set to the source length.

Layout:

- `types.dfy` (module `Types`) holds the error kinds, the terminator `NUL`,
  the `EMPTY` sentinel and `Min`. It also holds the class `FaultRegister`
  (the last-error cell), and the class `SafeString` with fields `buffer`
  (`s_string`), `size` (`s_length`) and `valid`. `valid` stands for the
  external validity predicate. `SafeString.Inv` is the invariant of a valid
  handle: the buffer holds exactly `size` characters and the last one is the
  terminator. `SafeString.Contents` is the logical content.
- `length.dfy` (module `LengthQuery`) models the length query as a function.
  It returns the value together with the error code the query records.
- `concatenate.dfy` (module `Concatenation`) holds both concatenations as
  methods on the handles. These methods write the handle's fields and the
  fault register in place. The copy loop stays a `while` loop over `i` and
  `j`. The file also holds the value-level specification `Appended`
  (old content followed by the first `min(limit, |src|)` source characters)
  and lemmas about it.

Destination and source may be the same handle. The model allows this and
proves that the reads at `j < count <= old length` come from the untouched
prefix. They never meet the writes at `i >= old length`.

The outcome of `realloc` is a boolean parameter, `allocSucceeds`. On success
the new storage is a fresh array whose prefix holds the old characters. On
failure nothing is assigned, so the handle keeps its buffer and size.

## Model

| member | source | states |
|---|---|---|
| `Types.Min` | utility/concatenate.c:49 | the clamp value is at most both arguments and equals one of them |
| `LengthQuery.Length` | utility/length.c:43-51 | a valid handle yields the number of characters before the terminator slot (one less than the buffer size, with the terminator at that index) and records NoError; an invalid handle yields EMPTY and records BadValue; only the handle's fields are read |
| `Concatenation.CopyInto` | utility/concatenate.c:58-60 | the index-by-index copy loop, as a function of the number of rounds done; it keeps the buffer's length |
| `Concatenation.CopyIntoSplices` | utility/concatenate.c:58-60 | after `n` rounds the buffer is its prefix up to `at`, then the first `n` source characters, then its old tail: every other position is untouched |
| `Concatenation.Realloc` | utility/concatenate.c:50 | a successful realloc gives a buffer of the requested size whose prefix is the old buffer |
| `Concatenation.CopyChars` | utility/concatenate.c:57-62 | the loop writes `count` source characters from position `at` and then the terminator; the rest of the buffer is kept; when the source owns the same buffer, its reads come from below `at` |
| `Concatenation.GrowAndAppend` | utility/concatenate.c:50-62 | after a successful realloc the destination owns a new buffer, its size is old size + count, and it holds old content + the first `count` source characters + terminator; no pre-existing buffer is written and a distinct source is unchanged |
| `Concatenation.ConcatenateLimit` | utility/concatenate.c:46-73 | invalid dest or src: NullPointer and dest unchanged; failed realloc: MemAlloc and dest unchanged; success: NoError, size grows by min(limit, source length), and the content is `Appended(old dest, old src, limit)` followed by the terminator; the source is only read; the handle invariant is kept |
| `Concatenation.Concatenate` | utility/concatenate.c:81-91 | same outcomes as the limited variant with limit = source length: NullPointer without delegating for an invalid operand, MemAlloc with dest unchanged, or NoError with content old dest + whole source + terminator |
| `Concatenation.FullLimitAppendsAll` | utility/concatenate.c:84 | a limit equal to the source length appends the whole source |
| `Concatenation.AppendedShape` | utility/concatenate.c:49-60 | the new content has length old + min(limit, source length), keeps the old characters, and has source character `j` at old length + `j` |
| `Concatenation.LimitClamp` | utility/concatenate.c:49 | a limit beyond the source length has the effect of the unlimited variant and never reads past the source |
| `Concatenation.LimitTruncation` | utility/concatenate.c:49-60 | a limit `k` within the source appends exactly the first `k` source characters |
| `Concatenation.EmptyAppendKeeps` | utility/concatenate.c:49-63 | an empty source or a zero limit leaves the content as it was, while the call still succeeds |
| `Concatenation.RepeatedEmptyAppendKeeps` | utility/concatenate.c:49-63 | concatenating an empty source any number of times, with any limits, leaves the content unchanged |
| `Concatenation.Examples` | utility/concatenate.c:49-62 | "foo"+"bar" is "foobar"; "foo" with "barbaz" limited to 3 is "foobar"; limited to 100 it is "foobarbaz" |

## Left out

- The allocator: only the success or failure of `realloc` is modelled, as a
  parameter. The model does not track pointer identity or whether the
  storage moved: a successful realloc always yields a fresh array. The
  characters past the old prefix are left unspecified.
- `safe_string_valid`, `safe_string_index`, `safe_string_index_set`,
  `safe_string_set_error` and `MIN` are defined in files that are not part of
  this model. They are taken as given. Validity is the `valid` field. Index
  and index-set are array reads and writes, which the verifier keeps within
  bounds. Set-error is an assignment to `FaultRegister.code`. `MIN` is `Min`.
- `SAFE_STRING_EMPTY` is defined in a header that is not part of this model.
  `EMPTY` is a natural-number constant whose value is left unstated.
- `unsigned long` wrap-around in `s_length - 1` and `old + limit + 1`: sizes
  are unbounded naturals. A valid handle has `s_length >= 1` by its invariant.
- `GrowAndAppend`: the length queries at lines 53 and 55 each write NoError to
  the error cell. That write is not modelled, because line 63 writes NoError
  again before the call returns. The length queries at lines 49-50 are
  modelled with their writes.
- Thread safety of the global error cell: the code is single-threaded and has
  no synchronisation.
- `sizeof(char)` scaling and byte encoding: characters are opaque values.
- Construction and deletion of handles are not part of the core. The
  `SafeString` constructor only builds a valid handle for use in proofs.
