/** The Python package `cexample`: `_handle_rust_str`, `_handle_c_result` and
    `operate`, which call the Rust library and give back, exactly once, every
    allocation it hands over. The library is a parameter standing for the
    module-level `lib` object. */
module Host {
  import opened Utf8
  import opened Arith
  import opened Ops
  import opened RustFmt
  import opened Boundary

  /** The Python exceptions these functions raise or let through. */
  datatype PyException =
    | ValueError(message: string)
    | Exception(message: string)
    | UnicodeDecodeError  // from `bytes.decode("utf-8")`
    | OverflowError       // from cffi, for an argument that does not fit `int32_t`

  /** How a Python call ends: it returns, it raises, or the Rust library
      panicked inside an `extern "C"` function and the process aborted. */
  datatype PyResult<T> = Return(value: T) | Raise(exception: PyException) | ProcessAborted(panic: Panic)

  /** `_handle_rust_str`: copies a Rust string out as a Python string, freeing
      it in the `finally` whether or not decoding succeeds. `ffi.string` stops
      at the terminator, which Valid places right after the bytes. */
  method HandleRustStr(lib: RustLib, p: Ptr) returns (r: PyResult<string>)
    requires lib.Valid() && p.Addr? && p.handle in lib.live && lib.live[p.handle].CString?
    modifies lib
    ensures lib.Valid() && lib.live == old(lib.live) - {p.handle}
    ensures old(Decode(lib.live[p.handle].bytes)).None? ==> r == Raise(UnicodeDecodeError)
    ensures old(Decode(lib.live[p.handle].bytes)).Some? ==> r == Return(old(Decode(lib.live[p.handle].bytes)).value)
  {
    var txt := Decode(lib.live[p.handle].bytes);
    if txt.Some? {
      r := Return(txt.value);
    } else {
      r := Raise(UnicodeDecodeError);
    }
    lib.FreeStr(p);
  }

  /** `_handle_c_result`: refuses a null record, turns a set error slot into
      an `Exception` carrying the message, and otherwise returns the success
      pointer (`None` being the null one) still live. The record is freed on
      both paths, before raising or returning, and never what its slots point
      to; only a message that fails to decode escapes before that free. */
  method HandleCResult(lib: RustLib, c: Ptr) returns (r: PyResult<Ptr>)
    requires lib.Valid() && Readable(lib.live, c)
    modifies lib
    ensures lib.Valid() && !r.ProcessAborted?
    ensures c.Null? ==> r == Raise(ValueError("CResult should not be NULL")) && lib.live == old(lib.live)
    ensures c.Addr? && old(lib.live[c.handle]).errorMessage.Null? ==>
              && r == Return(old(lib.live[c.handle]).success)
              && lib.live == old(lib.live) - {c.handle}
    ensures c.Addr? && old(lib.live[c.handle]).errorMessage.Addr? ==>
              var m := old(lib.live[c.handle]).errorMessage.handle;
              match old(Decode(lib.live[m].bytes))
              case Some(text) => r == Raise(Exception(text)) && lib.live == old(lib.live) - {m, c.handle}
              case None => r == Raise(UnicodeDecodeError) && lib.live == old(lib.live) - {m}
  {
    if c.Null? {
      return Raise(ValueError("CResult should not be NULL"));
    }
    var record := lib.live[c.handle];
    var error: Option<string> := None;
    var success := Ptr.Null;
    if record.errorMessage.Addr? {
      var text := HandleRustStr(lib, record.errorMessage);
      if text.Raise? {
        return Raise(text.exception);
      }
      error := Some(text.value);
    }
    if record.success.Addr? {
      success := record.success;
    }
    lib.FreeCResult(c);
    if error.Some? {
      return Raise(Exception(error.value));
    }
    return Return(success);
  }

  /** What `operate` does, from the host's side, as a function of its
      arguments and the library's build. */
  function Expected(op: string, x: int, y: int, overflowChecks: bool): (r: PyResult<int>) {
    if |op| != 1 then Raise(ValueError(op + " should be a character."))
    else if !InRange(x) || !InRange(y) then Raise(OverflowError)
    else
      match Ops.Operate(Points(Encode(op) + [0]), x, y, overflowChecks)
      case Panicked(p) => ProcessAborted(p)
      case Returned(Ok(v)) => Return(v)
      case Returned(Err(e)) => Raise(Exception(DebugText(e)))
  }

  /** `operate(op, x, y)`: refuses anything but a single character before
      touching the library, calls `c_operate`, and reads and frees the boxed
      result. Whatever the outcome, every allocation the call made has been
      given back exactly once: the live set is what it was. */
  method Operate(lib: RustLib, op: string, x: int, y: int) returns (r: PyResult<int>)
    requires lib.Valid()
    modifies lib
    ensures lib.Valid() && lib.live == old(lib.live)
    ensures |op| != 1 ==> r == Raise(ValueError(op + " should be a character."))
    ensures |op| == 1 && !(InRange(x) && InRange(y)) ==> r == Raise(OverflowError)
    ensures r == Expected(op, x, y, lib.overflowChecks)
  {
    if |op| != 1 {
      return Raise(ValueError(op + " should be a character."));
    }
    if !InRange(x) || !InRange(y) {
      return Raise(OverflowError);
    }
    ghost var before := lib.live;
    var call := lib.COperate(Points(Encode(op) + [0]), x, y);
    ghost var outcome := Ops.Operate(Points(Encode(op) + [0]), x, y, lib.overflowChecks);
    if call.Aborted? {
      return ProcessAborted(call.panic);
    }
    GivingBackRestores(before, lib.live, call.record, outcome.result);
    var handled := HandleCResult(lib, call.record);
    if handled.Raise? {
      return Raise(handled.exception);
    }
    var intPtr := handled.value;
    var num := lib.live[intPtr.handle].value;
    lib.FreeI32(intPtr);
    return Return(num);
  }

  /** Giving back a record made by `result_to_c` and its payload leaves the
      heap as it was before. */
  lemma GivingBackRestores(before: Heap, after: Heap, rec: Ptr, res: Result<Int32>)
    requires AddsRecord(before, after, rec, res)
    ensures after - {Payload(after[rec.handle]), rec.handle} == before
    ensures after - {rec.handle, Payload(after[rec.handle])} == before
  {
    var p := Payload(after[rec.handle]);
    assert (after - {p, rec.handle}).Keys == before.Keys;
  }

  /** A supported operator on `i32` arguments: the process aborts exactly when
      Rust's operator panics, and otherwise Python gets the operator's value,
      wrapped to 32 bits in a build without overflow checks. */
  lemma ExpectedOnOperator(c: char, x: Int32, y: Int32, overflowChecks: bool)
    requires c in Operators
    ensures Expected([c], x, y, overflowChecks).ProcessAborted? <==> Panics(c, x, y, overflowChecks)
    ensures !Panics(c, x, y, overflowChecks) ==> Expected([c], x, y, overflowChecks) == Return(Wrap(Math(c, x, y)))
    ensures !Panics(c, x, y, overflowChecks) && InRange(Math(c, x, y)) ==>
              Expected([c], x, y, overflowChecks) == Return(Math(c, x, y))
  {
    OperateOnOperator(c, [], x, y, overflowChecks);
    assert Encode([c]) + [0] + [] == Encode([c]) + [0];
  }

  /** Any other character, NUL aside, reaches Python as an `Exception` whose
      message is the Debug rendering of the Rust error, quoting the operator. */
  lemma ExpectedBadOperator(c: char, x: Int32, y: Int32, overflowChecks: bool)
    requires c !in Operators && c != '\0'
    ensures Expected([c], x, y, overflowChecks)
            == Raise(Exception("\"" + ("Bad Operator: '" + EscapeDebug([c]) + "'") + "\""))
  {
    OperateUnknownOperator([c], [], x, y, overflowChecks);
    assert Encode([c]) + [0] + [] == Encode([c]) + [0];
    BadOperatorPlain();
    DebugTextQuoted("Bad Operator: '", [c], "'");
  }

  /** A NUL character ends the C string before the operator, so Rust sees an
      empty operator and quotes nothing. */
  lemma ExpectedNulOperator(x: Int32, y: Int32, overflowChecks: bool)
    ensures Expected("\0", x, y, overflowChecks) == Raise(Exception("\"" + ("Bad Operator: '" + "'") + "\""))
  {
    OperateUnknownOperator("", [0], x, y, overflowChecks);
    assert Encode("\0") + [0] == Encode("") + [0] + [0];
    BadOperatorPlain();
    DebugTextQuoted("Bad Operator: '", "", "'");
    assert "Bad Operator: '" + "" + "'" == "Bad Operator: '" + "'";
  }

  /** The fixed text of the message needs no escaping. */
  lemma BadOperatorPlain()
    ensures Plain("Bad Operator: '") && Plain("'")
  {
  }

  /** `operate("+", 2, 2)` is 4, in either build. */
  lemma ExpectedAdd(overflowChecks: bool)
    ensures Expected("+", 2, 2, overflowChecks) == Return(4)
  {
    ExpectedOnOperator('+', 2, 2, overflowChecks);
  }

  /** `operate("-", 5, 9)` is -4. */
  lemma ExpectedSubtract(overflowChecks: bool)
    ensures Expected("-", 5, 9, overflowChecks) == Return(-4)
  {
    ExpectedOnOperator('-', 5, 9, overflowChecks);
  }

  /** `operate("^", 5, 3)` is 6. */
  lemma ExpectedXor(overflowChecks: bool)
    ensures Expected("^", 5, 3, overflowChecks) == Return(6)
  {
    ExpectedOnOperator('^', 5, 3, overflowChecks);
    XorExample();
  }

  /** `/` rounds toward zero: -7 / 2 is -3. */
  lemma ExpectedDivides(overflowChecks: bool)
    ensures Expected("/", -7, 2, overflowChecks) == Return(-3)
  {
    ExpectedOnOperator('/', -7, 2, overflowChecks);
  }

  /** `%` takes the sign of the dividend: -7 % 2 is -1. */
  lemma ExpectedRemainder(overflowChecks: bool)
    ensures Expected("%", -7, 2, overflowChecks) == Return(-1)
  {
    ExpectedOnOperator('%', -7, 2, overflowChecks);
  }

  /** Dividing by zero aborts the process, in either build. */
  lemma ExpectedDivideByZero(overflowChecks: bool)
    ensures Expected("/", 1, 0, overflowChecks) == ProcessAborted(DivideByZero)
  {
    OperateOnOperator('/', [], 1, 0, overflowChecks);
    assert Encode("/") + [0] + [] == Encode("/") + [0];
  }

  /** `i32::MAX + 1`: a debug build aborts the process, a release build
      returns `i32::MIN`. */
  lemma ExpectedAddOverflow()
    ensures Expected("+", MAX, 1, true) == ProcessAborted(AddOverflow)
    ensures Expected("+", MAX, 1, false) == Return(MIN)
  {
    ExpectedOnOperator('+', MAX, 1, true);
    ExpectedOnOperator('+', MAX, 1, false);
    OperateOnOperator('+', [], MAX, 1, true);
    assert Encode("+") + [0] + [] == Encode("+") + [0];
  }
}
