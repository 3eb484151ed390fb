# maptel: a verified model of the phone-number redirection registry

This project models `maptel.cc`: a process-wide registry of independent
phone-number redirection tables. Each table has a handle. The registry
supports five operations:

- `maptel_create` creates an empty table under the next handle of a counter
  that only grows.
- `maptel_delete` removes one table.
- `maptel_insert` sets or overwrites one mapping.
- `maptel_erase` removes one mapping. Erasing a missing mapping does nothing.
- `maptel_transform` follows a chain of mappings from a number. It writes the
  number where the chain ends into the caller's buffer. When the walk finds a
  cycle, it writes the number it started from instead.

The model has three modules, one file each:

- `numbers.dfy` (`TelNumbers`) models `tel_num_to_string`, which validates and
  copies a caller's C string. The caller's memory is a `seq<char>` read from
  the pointer onward. The method is a loop proved against the function
  `TelNumString`. Its flag `wellFormed` is true exactly when every check that
  the debug build asserts holds. As in the code, the copied string keeps its
  `'\0'` terminator, so stored keys and destinations end with it.
  `TEL_NUM_MAX_LEN` is 22. Its real value is in `maptel.h`, which is not part
  of this model.
- `resolution.dfy` (`Resolution`) is the pure specification of the walk.
  `Walk` gives the key where the loop of `maptel_transform` stops. `Resolve`
  gives the number it writes. Both are tied to an independent description of
  redirection chains:
  - A chain of distinct keys that ends at an unmapped number resolves to that
    number.
  - A chain that comes back to a key it has already left resolves to the
    source, even when the source is not on the cycle.
  - Every source has a chain of one of these two kinds, of length at most
    |table| + 1.
- `registry.dfy` (`Maptel`) holds the class `Registry`. It has the counter
  `idCount` and the field `tables: map<nat, map<string, string>>`, which its
  methods reassign.
  - `Valid()` says that every live handle is below the counter. It also says
    that every stored key and destination is a well-formed number: 1 to 22
    digits, then the terminator.
  - `Transform` runs the source's `while` loop over a `visited` set. It is
    proved against `Walk`. It writes the result into an `array<char>` through
    `SetTelDstValue`.
  - Three client methods (`ChainScenario`, `CycleScenario`, `HandleScenario`)
    drive the public interface through multi-hop chains, cycles, double
    erasure and handle non-reuse, using only the methods' contracts.

Each `assert` of the debug build becomes a `requires` clause of the operation
that makes it: a live handle, valid numbers, and enough buffer capacity.

The capacity check on the cycle path asks for more than it writes.
`transform_tel_to_dst` demands `len >= |key|` when the chain ends and
`len > |firstKey|` on a cycle. Both lengths count the terminator, so the cycle
path asks for one character more than it writes. The model keeps these checks
exactly as the code makes them (`EnoughRoom`).

## Model

| member | source | states |
|---|---|---|
| `TelNumbers.NulIndex` | maptel.cc:33-38 | the index of the first terminator in the caller's memory (where the loop's break fires when that index is at most TEL_NUM_MAX_LEN), or the memory's length when there is none |
| `TelNumbers.IsTelNum` | maptel.cc:31-44 | the debug checks: non-empty, terminated within TEL_NUM_MAX_LEN + 1 characters, digits before the terminator; a valid number lies inside readable memory and starts with a digit |
| `TelNumbers.TelNumString` | maptel.cc:29-45 | the string returned: a prefix of the input of at most TEL_NUM_MAX_LEN + 1 characters, with no terminator before its last character, and holding the terminator exactly when the input is terminated within that bound |
| `TelNumbers.TelNumToString` | maptel.cc:28-46 | builds the scanned characters, the terminator included when reached, at most TEL_NUM_MAX_LEN + 1 of them; reports success exactly when the input is non-empty, all digits and terminated in time |
| `TelNumbers.AcceptsDigitRun` | maptel.cc:31-44 | every run of 1 to TEL_NUM_MAX_LEN digits followed by the terminator is accepted, whatever follows, and converts to those digits plus the terminator |
| `TelNumbers.AcceptedIsDigitRun` | maptel.cc:31-44 | conversely, every accepted input is such a run; its conversion is a stored number (digits then terminator) and a prefix of the input |
| `Resolution.Walk` | maptel.cc:142-146 | the loop's final key is the starting key or some destination of the table |
| `Resolution.Resolve` | maptel.cc:59-66 | the number written: the source itself or a number the table does not map |
| `Resolution.WalkFollowsChain` | maptel.cc:142-146 | from any point of a chain whose keys are distinct until it reaches an unmapped or repeated key, the walk stops at the chain's last element |
| `Resolution.ResolvesToChainEnd` | maptel.cc:59-62 | a chain of distinct keys ending at an unmapped number resolves to that number |
| `Resolution.CycleResolvesToSource` | maptel.cc:63-66 | a chain that revisits a key resolves to the original source, not to the cycle's entry point |
| `Resolution.Trail` | maptel.cc:142-146 | the sequence of keys the walk passes through starts at the source |
| `Resolution.TrailIsChain` | maptel.cc:138-146 | the walk's keys form a chain of fresh keys that stops at an unmapped or already visited key, ends where `Walk` does, and takes at most as many steps as there are unvisited mapped keys |
| `Resolution.ChainOfEverySource` | maptel.cc:138-146 | every source has a chain of one of the two kinds, so the two chain lemmas determine every result; the loop runs at most as many times as the table has keys |
| `Resolution.UnmappedResolvesToItself` | maptel.cc:59-62 | a source that is not mapped resolves to itself |
| `Resolution.ResolveIsIdempotent` | maptel.cc:56-70 | the result is the source or an unmapped number, so resolving it again gives it back |
| `Resolution.OneHop` | maptel.cc:142-148 | a source mapped to an unmapped number resolves to that number |
| `Resolution.TwoHops` | maptel.cc:142-148 | a to b and b to an unmapped c resolve a to c |
| `Resolution.TwoCycle` | maptel.cc:59-69 | two numbers mapped to each other each resolve to themselves, and so does a number mapped to itself |
| `Maptel.EnoughRoom` | maptel.cc:59-66 | the capacity checks of both branches; when they hold, the written number fits in the capacity |
| `Maptel.Registry.Valid` | maptel.cc:16-24 | the registry invariant: live handles are below the counter and tables hold only stored numbers, so the next handle is free |
| `Maptel.ResolvesToStoredNumber` | maptel.cc:138-148 | in a table of stored numbers, a stored source resolves to a stored number |
| `Maptel.SampleNumbers` | maptel.cc:28-46 | the numbers 100, 200 and 300, terminated, are valid and convert to themselves |
| `Maptel.SetTelDstValue` | maptel.cc:49-52 | writes exactly the key's characters at indices 0 to length - 1 and leaves the rest of the buffer unchanged |
| `Maptel.Registry.constructor` | maptel.cc:16-24 | the registry starts with no tables and the counter at 0 |
| `Maptel.Registry.Create` | maptel.cc:73-80 | returns the old counter value, which no live table holds; advances the counter by exactly one; installs an empty table there and changes no other table |
| `Maptel.Registry.Delete` | maptel.cc:83-91 | for a live handle: removes that table only and leaves the counter alone |
| `Maptel.Registry.Insert` | maptel.cc:93-108 | for a live handle and valid numbers: the table maps the converted source to the converted destination (last write wins); nothing else changes |
| `Maptel.Registry.Erase` | maptel.cc:110-126 | removes the converted source from that table; when it is absent the registry is unchanged; nothing else changes |
| `Maptel.Registry.TransformTelToDst` | maptel.cc:56-70 | writes the final key when it is unmapped and the first key when it is still mapped, under the two capacity checks |
| `Maptel.Registry.Transform` | maptel.cc:128-153 | writes `Resolve` of the converted source, a stored number, at the start of the buffer and nothing beyond it |

## Left out

- Diagnostic logging to `std::cerr` is not modelled. It only makes the calls observable.
- The model states each debug check as a precondition. What a release build (with `NDEBUG`) does with a call that breaks one is not modelled:
  - `maptel_delete` on a handle that is not live does nothing, because erasing an absent key is a no-op.
  - `maptel_insert`, `maptel_erase` and `maptel_transform` on an unknown handle create an empty table under it, through `operator[]`.
  - `tel_num_to_string` returns invalid numbers as scanned: an empty number as the terminator alone, a number with a non-digit with that character kept, and an over-long number as its first TEL_NUM_MAX_LEN + 1 characters with no terminator. `TelNumString` gives that result, but no registry operation accepts such a number.
  - A null pointer, reading past a short unterminated string, and writing past the caller's buffer are undefined behaviour.
- Null pointers are not modelled: callers' numbers are sequences.
- Memory past the caller's string is not modelled. `Readable` requires that the scan stays inside the given memory.
- Hashing and the iteration order of the unordered containers are not modelled. Dafny maps and sets replace them.
- The registry is created lazily, as a function-local static, on first use. The model uses an ordinary object built by its constructor.
- Concurrency is not modelled. The source has none and assumes single-threaded use.
- `maptel.h` is not part of this model. Only its `TEL_NUM_MAX_LEN` is needed, fixed here at 22.
- Maptel.Registry.Create: handles are unbounded naturals. The 64-bit `size_t` counter wrapping around after 2^64 creations is not modelled.
- Maptel.Registry.Transform: the C code cannot check that the capacity `len` the caller states is the buffer's real size. The model requires `len <= telDst.Length`.
- Maptel.Registry.Transform: `maptel_transform` returns nothing. The result is observable only through the buffer, and the model says so only through the buffer.
