/** The pure half of `src/lib.rs`: `accept_str`, which turns a foreign
    `*const c_void` into a borrowed `&str`, and `operate`, which dispatches on
    the operator. A Rust `&str` or `String` is always UTF-8, so it is modelled
    as the text it decodes to; `Encode` gives back its bytes. */
module Ops {
  import opened Utf8
  import opened Arith

  datatype Result<T> = Ok(value: T) | Err(error: string)

  /** A foreign pointer as `accept_str` receives it: null, or the address of
      a buffer whose bytes from that address on are `mem`. */
  datatype RawPtr = Null | Points(mem: seq<byte>)

  /** `CStr::from_ptr` may only be given a buffer that holds a terminating
      NUL; what happens otherwise is undefined. */
  predicate Terminated(p: RawPtr) {
    p.Points? ==> 0 in p.mem
  }

  /** The bytes before the first NUL. */
  function UntilNul(mem: seq<byte>): (r: seq<byte>)
    requires 0 in mem
    ensures |r| < |mem| && r == mem[..|r|] && mem[|r|] == 0 && 0 !in r
  {
    if mem[0] == 0 then []
    else
      assert mem == [mem[0]] + mem[1..];
      [mem[0]] + UntilNul(mem[1..])
  }

  /** What lies after the first NUL is never read. */
  lemma {:induction false} UntilNulOfTerminated(a: seq<byte>, rest: seq<byte>)
    requires 0 !in a
    ensures UntilNul(a + [0] + rest) == a
    decreases |a|
  {
    if a != [] {
      assert (a + [0] + rest)[1..] == a[1..] + [0] + rest;
      UntilNulOfTerminated(a[1..], rest);
    }
  }

  /** `accept_str(name, input)`: a null pointer is refused before anything is
      read; otherwise the bytes up to the first NUL are borrowed as a string
      when they are UTF-8, and refused with an error naming the parameter
      when they are not. */
  function AcceptStr(name: string, input: RawPtr): (r: Result<string>)
    requires Terminated(input)
    ensures input.Null? ==> r == Err("NULL pointer: " + name)
    ensures input.Points? ==> (r.Ok? <==> IsUtf8(UntilNul(input.mem)))
    ensures input.Points? && r.Err? ==> r.error == "Could not parse " + name + " pointer as UTF-8 string!"
    ensures r.Ok? ==> input.Points? && Encode(r.value) == UntilNul(input.mem)
  {
    if input.Null? then
      Err("NULL pointer: " + name)
    else
      var bytes := UntilNul(input.mem);
      match Decode(bytes)
      case Some(text) =>
        EncodeDecode(bytes);
        Ok(text)
      case None =>
        Err("Could not parse " + name + " pointer as UTF-8 string!")
  }

  /** The reasons a Rust arithmetic operator panics. */
  datatype Panic =
    | AddOverflow | SubOverflow | MulOverflow
    | DivideByZero | DivideOverflow
    | RemainderByZero | RemainderOverflow

  /** How a call of `operate` ends: it returns its `Result`, or it panics. */
  datatype Eval = Returned(result: Result<Int32>) | Panicked(panic: Panic)

  /** The operators `operate` knows. */
  const Operators: string := "+-*/%^"

  predicate IsOperator(op: string) {
    |op| == 1 && op[0] in Operators
  }

  /** `+`, `-` or `*` on `i32`: with overflow checks on (a debug build) an
      out-of-range result panics; without them it wraps around. */
  function Checked(v: int, overflowChecks: bool, overflow: Panic): (r: Eval)
    ensures r.Panicked? <==> overflowChecks && !InRange(v)
    ensures r.Panicked? ==> r.panic == overflow
    ensures r.Returned? ==> r.result.Ok? && (v - r.result.value) % 0x1_0000_0000 == 0
    ensures r.Returned? && InRange(v) ==> r.result == Ok(v)
  {
    if overflowChecks && !InRange(v) then Panicked(overflow) else Returned(Ok(Wrap(v)))
  }

  /** `operate(op, x, y)`: borrows the operator with `accept_str`, passing on
      its error unchanged, and then dispatches on it: the six operators on
      `i32`, where `/` and `%` panic on a zero divisor and on `MIN` and `-1`
      whatever the build, and an error quoting any other operator. */
  function Operate(op: RawPtr, x: Int32, y: Int32, overflowChecks: bool): (r: Eval)
    requires Terminated(op)
    ensures AcceptStr("operator", op).Err? ==> r == Returned(Err(AcceptStr("operator", op).error))
    ensures AcceptStr("operator", op).Ok? && !IsOperator(AcceptStr("operator", op).value) ==>
              r == Returned(Err("Bad Operator: '" + AcceptStr("operator", op).value + "'"))
  {
    match AcceptStr("operator", op)
    case Err(e) => Returned(Err(e))
    case Ok(s) =>
      if s == "+" then Checked(x + y, overflowChecks, AddOverflow)
      else if s == "-" then Checked(x - y, overflowChecks, SubOverflow)
      else if s == "*" then Checked(x * y, overflowChecks, MulOverflow)
      else if s == "/" then
        if y == 0 then Panicked(DivideByZero)
        else if x == MIN && y == -1 then Panicked(DivideOverflow)
        else DivisionInRange(x, y); Returned(Ok(TruncDiv(x, y)))
      else if s == "%" then
        if y == 0 then Panicked(RemainderByZero)
        else if x == MIN && y == -1 then Panicked(RemainderOverflow)
        else DivisionInRange(x, y); Returned(Ok(TruncRem(x, y)))
      else if s == "^" then
        Returned(Ok(Xor(x, y)))
      else
        Returned(Err("Bad Operator: '" + s + "'"))
  }

  /** What each operator means on the integers, with `/` and `%` rounding
      toward zero. */
  function Math(c: char, x: Int32, y: Int32): (r: int)
    requires c in Operators
    requires (c == '/' || c == '%') ==> y != 0
  {
    if c == '+' then x + y
    else if c == '-' then x - y
    else if c == '*' then x * y
    else if c == '/' then TruncDiv(x, y)
    else if c == '%' then TruncRem(x, y)
    else Xor(x, y)
  }

  /** When `operate` panics: an out-of-range `+`, `-` or `*` in a build with
      overflow checks, and a zero divisor or `MIN` and `-1` for `/` and `%`. */
  predicate Panics(c: char, x: Int32, y: Int32, overflowChecks: bool)
    requires c in Operators
  {
    if c == '/' || c == '%' then y == 0 || (x == MIN && y == -1)
    else c != '^' && overflowChecks && !InRange(Math(c, x, y))
  }

  /** For each operator, `operate` panics exactly as Panics says and otherwise
      returns the operator's value wrapped to 32 bits, which is the value
      itself whenever it fits. */
  lemma OperateOnOperator(c: char, rest: seq<byte>, x: Int32, y: Int32, overflowChecks: bool)
    requires c in Operators
    ensures var r := Operate(Points(Encode([c]) + [0] + rest), x, y, overflowChecks);
            && (r.Panicked? <==> Panics(c, x, y, overflowChecks))
            && (r.Returned? ==> r.result == Ok(Wrap(Math(c, x, y))))
            && (r.Returned? ==> (InRange(Math(c, x, y)) <==> r.result == Ok(Math(c, x, y))))
  {
    UntilNulOfTerminated(Encode([c]), rest);
    DecodeEncode([c]);
    if c == '/' || c == '%' {
      if y != 0 && !(x == MIN && y == -1) {
        DivisionInRange(x, y);
      }
    }
  }

  /** Any other well-formed operator is an error whose message quotes it. */
  lemma OperateUnknownOperator(op: string, rest: seq<byte>, x: Int32, y: Int32, overflowChecks: bool)
    requires '\0' !in op && !IsOperator(op)
    ensures Operate(Points(Encode(op) + [0] + rest), x, y, overflowChecks)
            == Returned(Err("Bad Operator: '" + op + "'"))
  {
    UntilNulOfTerminated(Encode(op), rest);
    DecodeEncode(op);
  }

  /** Bytes that are not UTF-8 are refused before any operator is looked at. */
  lemma OperateNotUtf8(op: seq<byte>, rest: seq<byte>, x: Int32, y: Int32, overflowChecks: bool)
    requires 0 !in op && !IsUtf8(op)
    ensures Operate(Points(op + [0] + rest), x, y, overflowChecks)
            == Returned(Err("Could not parse " + "operator" + " pointer as UTF-8 string!"))
  {
    UntilNulOfTerminated(op, rest);
    assert AcceptStr("operator", Points(op + [0] + rest)).Err?;
  }

  /** The unit test at the end of `src/lib.rs`: `"+"` with 2 and 2 gives 4. */
  lemma OperateAddsTwoAndTwo(overflowChecks: bool)
    ensures Operate(Points([0x2B, 0]), 2, 2, overflowChecks) == Returned(Ok(4))
  {
    OperateOnOperator('+', [], 2, 2, overflowChecks);
    assert Encode("+") + [0] + [] == [0x2B, 0];
  }
}
