# example_rust_py in Dafny

This project models `example_rust_py`, a small Rust library that offers `i32`
arithmetic to Python through the C calling convention, together with the Python
package `cexample` that calls it.

On the Rust side (`src/lib.rs`):

- `accept_str` reads a foreign, possibly null pointer as the UTF-8 text before
  its first NUL.
- `operate` dispatches on the operator `+ - * / % ^`.
- `result_to_c` wraps the outcome in a heap-allocated `CResult` record. The
  record has two nullable slots, one for an error string and one for a boxed
  `i32`.
- `free_str`, `free_c_result` and `free_i32` each give back exactly one
  allocation of their own kind.

On the Python side (`cexample/__init__.py`), `operate` calls `c_operate`.
`_handle_c_result` and `_handle_rust_str` then read the record. Every allocation
is given back once, on the success path and on the error path alike.

The modules are:

- `Utf8` (`utf8.dfy`): the UTF-8 grammar of section 4 of RFC 3629, strict
  decoding and encoding, and both round trips. Rust's `CStr::to_str`, Python's
  `bytes.decode("utf-8")` and `str.encode` are all this one definition.
- `Arith` (`arith.dfy`): Rust's `i32`, covering wrap-around, `/` and `%`
  rounding toward zero, and `^` on the two's-complement bit pattern.
- `RustFmt` (`fmt.dfy`): the `{:?}` rendering of a `String`.
- `Ops` (`operate.dfy`): `accept_str` and `operate` as pure functions. A Rust
  `&str` is modelled as the text it holds. A panic is an explicit outcome:
  - `+`, `-` and `*` panic on overflow in a build with overflow checks;
  - `/` and `%` panic on a zero divisor, and on `i32::MIN` and `-1`, in any
    build.
- `Boundary` (`boundary.dfy`): the `RustLib` class. Its state is an abstract
  heap, a map from the addresses Rust has handed out to what each holds. Its
  methods model `return_string`, `result_to_c`, `c_operate` and the three
  `free_*` functions. A panic inside `c_operate` cannot unwind across
  `extern "C"`, so the process aborts.
- `Host` (`host.dfy`): the three Python functions as methods on a `RustLib`.
  `Expected` gives the outcome of Python's `operate` as a function of its
  arguments. `Host.Operate` is proved to return exactly that outcome and to
  leave the heap as it was.

Where the code and its design disagree, the model follows the code:

- The unit test at `src/lib.rs:96` passes the literal `"+"` where `operate`
  takes a raw pointer. It is modelled as the call it means: the bytes of `"+"`
  followed by a NUL.
- `_handle_c_result` decodes the error message before it frees the record. If
  decoding raised, the record would leak. `Host.HandleCResult` models this
  order as written. `Host.Operate` shows that the path cannot happen for
  records made by `result_to_c`, because the message is always the UTF-8
  encoding of its text.

## Model

| member | source | states |
|---|---|---|
| `Utf8.Decode` | src/lib.rs:28-30 | Decoding succeeds exactly when the bytes are well-formed UTF-8 |
| `Utf8.Encode` | cexample/__init__.py:37 | The encoding of any text is well-formed UTF-8, and holds a NUL byte exactly when the text holds a NUL character |
| `Utf8.DecodeEncode` | cexample/__init__.py:10 | Decoding the encoding of any text gives that text back |
| `Utf8.EncodeDecode` | src/lib.rs:28-30 | Well-formed bytes are exactly the encoding of the text they decode to, so `to_str` borrows those very bytes |
| `Arith.Wrap` | src/lib.rs:79-81 | An unchecked `+`, `-` or `*` gives the `i32` congruent to the true result modulo 2^32, which is that result whenever it fits |
| `Arith.TruncDiv` | src/lib.rs:82 | `/` gives the quotient rounded toward zero: its magnitude is the largest q with q times the divisor's magnitude at most the dividend's, and its sign is the product of the operands' signs |
| `Arith.TruncRem` | src/lib.rs:83 | `%` gives x minus the quotient times y; it is smaller than the divisor in magnitude and has the sign of x |
| `Arith.DivisionInRange` | src/lib.rs:82-83 | On `i32` operands, `/` and `%` stay in range unless the operands are `i32::MIN` and `-1` |
| `Arith.Xor` | src/lib.rs:84 | `^` on two's-complement bit patterns: zero exactly when the operands are equal, negative exactly when one operand is negative and the other is not |
| `Arith.XorProperties` | src/lib.rs:84 | `^` commutes, and applying it twice with the same operand gives the first operand back |
| `Arith.XorExample` | src/lib.rs:84 | `5 ^ 3 == 6` |
| `RustFmt.EscapeChar` | src/lib.rs:47 | A character is written unchanged unless Debug escapes it; no escape holds a NUL |
| `RustFmt.EscapeDebug` | src/lib.rs:47 | The escaped text holds no NUL, and text that needs no escaping is unchanged |
| `RustFmt.EscapeDebugConcat` | src/lib.rs:47 | Escaping is applied character by character, so it distributes over concatenation |
| `RustFmt.DebugText` | src/lib.rs:47 | `format!("{:?}", e)` is quoted and holds no NUL, so the `expect` at line 35 can never fail for it |
| `RustFmt.DebugTextQuoted` | src/lib.rs:47 | Rendering text between delimiters that need no escaping escapes only the text in between |
| `Ops.UntilNul` | src/lib.rs:27 | `CStr::from_ptr` sees the bytes before the first NUL; these contain no NUL and are followed by one |
| `Ops.UntilNulOfTerminated` | src/lib.rs:27 | Bytes after the first NUL are never read |
| `Ops.AcceptStr` | src/lib.rs:23-31 | A null pointer gives `Err("NULL pointer: " + name)`. Otherwise the call succeeds exactly when the bytes before the NUL are UTF-8, and then returns the text of exactly those bytes. On failure the error names the parameter |
| `Ops.Checked` | src/lib.rs:79-81 | `+`, `-` and `*` panic with the operator's own panic exactly when overflow checks are on and the true value is out of range. Otherwise they return a value congruent to it modulo 2^32, and the value itself when it fits |
| `Ops.Operate` | src/lib.rs:76-87 | An `accept_str` error is passed on unchanged before any dispatch; any operator outside the six gives `Err("Bad Operator: '" + op + "'")` |
| `Ops.OperateOnOperator` | src/lib.rs:78-84 | For each of the six operators, `operate` panics exactly when Rust's operator panics; otherwise it returns the value wrapped to `i32`, which is the exact value whenever that fits |
| `Ops.OperateUnknownOperator` | src/lib.rs:85 | Any other NUL-free operator text gives the Bad Operator error quoting it, whatever follows the NUL |
| `Ops.OperateNotUtf8` | src/lib.rs:77 | Bytes that are not UTF-8 give the `accept_str` error for `operator` |
| `Ops.OperateAddsTwoAndTwo` | src/lib.rs:96 | `operate` on `"+"`, 2 and 2 returns `Ok(4)` |
| `Boundary.DefaultCResultUnset` | src/lib.rs:13-19 | `CResult::default()` has both slots null: a host can read it, but it is not yet a well-formed result |
| `Boundary.WellFormed` | src/lib.rs:39-52 | The record handed out has exactly one slot set, pointing to a distinct live allocation of that slot's kind. Such a record is one the host's reading code accepts, and its set slot is never missing |
| `Boundary.Export` | src/lib.rs:41-50 | `Ok(v)` becomes a box holding exactly `v`. `Err(e)` becomes a C string with no NUL that decodes to the Debug text of `e` |
| `Boundary.RustLib.ReturnString` | src/lib.rs:34-37 | Adds one fresh C string holding the UTF-8 of a NUL-free text, and changes nothing else |
| `Boundary.RustLib.ResultToC` | src/lib.rs:39-52 | Returns a fresh, non-null record that started as `CResult::default()`. Exactly one slot is set, the success slot exactly for `Ok`, and it points to a fresh payload `Export(res)`. Nothing else in the heap changes |
| `Boundary.RustLib.COperate` | src/lib.rs:71-74 | If `operate` panics, the process aborts and nothing is allocated. Otherwise the call adds exactly the record and payload that `result_to_c` makes from `operate`'s result |
| `Boundary.RustLib.FreeStr` | src/lib.rs:54-57 | Requires a live C string and removes exactly that allocation |
| `Boundary.RustLib.FreeCResult` | src/lib.rs:59-63 | Requires a live record and removes the record alone; the payloads in its slots stay live |
| `Boundary.RustLib.FreeI32` | src/lib.rs:65-69 | Requires a live boxed `i32` and removes exactly that allocation |
| `Host.HandleRustStr` | cexample/__init__.py:3-13 | Returns the decoded text, or raises `UnicodeDecodeError`. Either way it frees the string exactly once |
| `Host.HandleCResult` | cexample/__init__.py:15-32 | A null record raises `ValueError("CResult should not be NULL")`. A set error slot raises `Exception` with the decoded message, after freeing the string and the record. Otherwise it frees the record alone and returns the success pointer, still live |
| `Host.Operate` | cexample/__init__.py:34-40 | More than or fewer than one character raises `ValueError` before the library is called, and an argument outside `i32` raises `OverflowError`. Otherwise the result is `Expected`. On every path the heap ends as it began |
| `Host.GivingBackRestores` | cexample/__init__.py:26-39 | Freeing the record and the payload that `result_to_c` made restores the heap as it was before the call |
| `Host.ExpectedOnOperator` | cexample/__init__.py:37-40 | For each operator, Python's `operate` returns the operator's value unless Rust panics, and a panic aborts the process |
| `Host.ExpectedBadOperator` | cexample/__init__.py:30-31 | Any other character, NUL aside, raises `Exception`. Its message is the Debug rendering of `Bad Operator: '<op>'` |
| `Host.ExpectedNulOperator` | src/lib.rs:27-30 | A NUL operator reaches Rust as the empty string and is reported as `Bad Operator: ''` |
| `Host.ExpectedAdd` | src/lib.rs:79 | `operate("+", 2, 2)` returns 4 |
| `Host.ExpectedSubtract` | src/lib.rs:80 | `operate("-", 5, 9)` returns -4 |
| `Host.ExpectedXor` | src/lib.rs:84 | `operate("^", 5, 3)` returns 6 |
| `Host.ExpectedDivides` | src/lib.rs:82 | `operate("/", -7, 2)` returns -3 |
| `Host.ExpectedRemainder` | src/lib.rs:83 | `operate("%", -7, 2)` returns -1 |
| `Host.ExpectedDivideByZero` | src/lib.rs:82 | `operate("/", 1, 0)` aborts the process with a divide-by-zero panic in either build |
| `Host.ExpectedAddOverflow` | src/lib.rs:79 | `operate("+", i32::MAX, 1)` aborts the process in a build with overflow checks and returns `i32::MIN` without them |

## Left out

- Real memory is not modelled. Raw pointers, `unsafe`, `CStr::from_ptr`, `CString::into_raw`/`from_raw`, `Box::into_raw`/`from_raw` and the libc types are an abstract heap. It maps handles to allocations. Handles are never reused, which is stricter than a real allocator.
- Misuse by the caller is undefined behaviour in the source, not an outcome. It appears only as preconditions of the `free_*` methods and of `accept_str`: a double free, a pointer of the wrong kind, a null pointer, or a string without a terminating NUL.
- The cffi objects `ffi` and `lib` are not modelled, and neither is the extension's build (`cexample/__init__.py:1`). The cffi build script is not part of this model. The conversion of a Python `str` to the `op` pointer is taken to be its UTF-8 bytes followed by a NUL.
- The conversion of Python `int` to `int32_t` is modelled as `OverflowError` outside `i32`. Its message is not modelled.
- `Host.HandleRustStr`: the message of `UnicodeDecodeError` is not modelled.
- Python strings that hold lone surrogates cannot be expressed, because a Dafny `char` is a Unicode scalar value.
- `RustFmt.EscapeChar`: Debug's escaping of non-ASCII characters is not modelled. Rust also writes grapheme extenders and characters it does not count as printable as `\u{..}`. Here every non-ASCII character passes through unchanged. The fact the boundary needs, that the rendering holds no NUL, holds either way.
- The process abort after a panic is a single `Aborted` outcome. The panic message and the unwinding machinery are not modelled.
- There is no shared state and no threading.
