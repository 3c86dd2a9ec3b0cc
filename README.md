# Mock messaging-socket stub, modelled in Dafny

The native library under `project/csharp-java-memory/native` stands in for a
messaging socket so that a managed runtime can measure what it costs to cross
into native code. It has three stateless entry points. Each is one loop over
a caller-supplied byte buffer and its length:

- `mock_send(data, len)`: reads the bytes and returns their sum in an
  `int64_t`. The buffer is `const`.
- `mock_recv(buf, len)`: writes `i & 0xFF` at every position `i < len` and
  returns `len` as an `int64_t`.
- `mock_transform(data, len)`: XORs every byte with `0xAA` in place.

The Dafny project has two modules:

- `CTypes` (`c_types.dfy`) holds the C types of the signatures. `Byte` is
  `bv8` (`uint8_t`). `Size` is `[0, 2^64)` (`size_t`). `Int64` is
  `int64_t`. `SizeToInt64` is the `(int64_t)len` cast.
- `MockZmq` (`mock_zmq.dfy`) holds the three entry points as methods over
  `array<Byte>`, with their loops. Beside them are the specification
  functions they are proved against: `Sum`, `Pattern` and `Xor`. Lemmas
  about those functions complete the model, and client methods show what a
  caller can rely on.

The C caller passes a raw pointer. Here `requires len <= buf.Length` stands
in for "the pointer is valid for `len` bytes", which the C code cannot check
and leaves undefined otherwise. `Send` has no `modifies` clause, so Dafny
itself guarantees that the buffer is only read.

`mock_send` adds into a signed `int64_t`, and signed overflow is undefined
behaviour in C. `Send` therefore requires that the bytes sum to at most
`INT64_MAX`. This is the weakest precondition under which the C loop is
defined. `SumFitsInt64` shows that every buffer of at most
`INT64_MAX / 255` bytes meets it.

For `len >= 2^63` the `(int64_t)len` cast in `mock_recv` is
implementation-defined. The model takes the two's-complement result, which
is the `Int64` congruent to `len` modulo 2^64.

## Model

| member | source | states |
|---|---|---|
| `MockZmq.Send` | project/csharp-java-memory/native/src/mock_zmq.c:7-16 | the result is the sum of `data[0..len)` with each byte read as 0..255; it lies in `[0, 255*len]`; `len == 0` gives 0; the buffer is not modified (no modifies clause); the precondition excludes exactly the inputs whose sum would overflow `int64_t` |
| `MockZmq.Recv` | project/csharp-java-memory/native/src/mock_zmq.c:22-29 | afterwards `buf[0..len)` is the pattern `i mod 256` whatever it held before, positions `>= len` are unchanged, and the result is `len` converted to `int64_t` (exactly `len` when `len <= INT64_MAX`) |
| `MockZmq.Transform` | project/csharp-java-memory/native/src/mock_zmq.c:35-40 | afterwards `data[0..len)` is the old prefix with every byte XORed with 0xAA, and positions `>= len` are unchanged, so `len == 0` changes nothing |
| `MockZmq.TransformTwice` | project/csharp-java-memory/native/src/mock_zmq.c:37-39 | two transforms with the same `len` restore the entire buffer |
| `MockZmq.Sum` | project/csharp-java-memory/native/src/mock_zmq.c:8-13 | the checksum of `n` unsigned bytes is at most `255*n`, and the empty buffer sums to 0 |
| `MockZmq.SumAppend` | project/csharp-java-memory/native/src/mock_zmq.c:11-13 | the checksum of a concatenation is the sum of the two checksums, so the order in which the loop adds bytes does not matter |
| `MockZmq.SumPrefixBound` | project/csharp-java-memory/native/src/mock_zmq.c:12 | a prefix never sums to more than the whole buffer, so no partial sum of the loop overflows when the final sum does not |
| `MockZmq.SumStep` | project/csharp-java-memory/native/src/mock_zmq.c:12 | one iteration adds exactly `data[i]` to the checksum of `data[0..i)` |
| `MockZmq.SumFitsInt64` | project/csharp-java-memory/native/src/mock_zmq.c:8 | with `len <= INT64_MAX / 255` the `int64_t` accumulator cannot overflow |
| `MockZmq.SumExample` | project/csharp-java-memory/native/src/mock_zmq.c:7-16 | the checksum of the bytes 1, 2, 3, 4 is 10 |
| `MockZmq.Pattern` | project/csharp-java-memory/native/src/mock_zmq.c:24-26 | the fill for `len` bytes is exactly `len` bytes long, one per position the loop writes; each byte is `PatternByte(k)`, the position `k` modulo 256 converted to a byte |
| `MockZmq.PatternPeriodic` | project/csharp-java-memory/native/src/mock_zmq.c:25 | the received pattern repeats every 256 positions |
| `MockZmq.PatternPrefix` | project/csharp-java-memory/native/src/mock_zmq.c:24-26 | a shorter receive writes a prefix of what a longer one writes: each byte depends only on its position |
| `MockZmq.PatternFirstPeriod` | project/csharp-java-memory/native/src/mock_zmq.c:25 | within the first 256 positions, byte `k` of the pattern has value `k` |
| `MockZmq.Xor` | project/csharp-java-memory/native/src/mock_zmq.c:38 | the transformed bytes have the same length, and XORing each with 0xAA again gives back the original byte |
| `MockZmq.XorInvolutive` | project/csharp-java-memory/native/src/mock_zmq.c:38 | XOR with the fixed mask 0xAA undoes itself |
| `MockZmq.XorPrefix` | project/csharp-java-memory/native/src/mock_zmq.c:37-39 | transforming a buffer and then taking a prefix equals transforming that prefix |
| `CTypes.SizeToInt64` | project/csharp-java-memory/native/src/mock_zmq.c:28 | the `(int64_t)` cast of a `size_t` gives the `int64_t` congruent to it modulo 2^64, which is the value itself when it is at most `INT64_MAX` |

## Left out

- The header `native/include/mock_zmq.h` holds only declarations and doc comments. Its return-value notes agree with the contracts above.
- The Java benchmark classes and their generated JMH support classes measure time. What they do is call into the runtime's memory and foreign-function libraries, which are not part of this model.
- Pointer validity becomes the precondition `len <= buf.Length`. A null pointer, a too-short region and concurrent calls on one region are undefined or the caller's responsibility in C, and are not modelled.
- `Recv`: the source writes `(uint8_t)(i & 0xFF)`. The model writes `(i % 256) as Byte`, the same value for an unsigned index. The model does not prove the bitwise identity `i & 0xFF == i % 256` on 64-bit words: Dafny does not prove the conversion of a `bv64` to `int` automatically, so the identity is left unproved.
- `Send`: the case the C standard leaves undefined, a checksum above `INT64_MAX`, is excluded by precondition. The two's-complement wrap-around that compiled code would show there is not modelled.
