/** The imperative half of `src/lib.rs`: the `#[repr(C)]` result record,
    `result_to_c`, which builds one on the heap, `c_operate`, and the three
    `extern "C"` functions that give allocations back. The heap is abstract:
    a map from the addresses Rust has handed out and not yet had back to what
    each one holds. */
module Boundary {
  import opened Utf8
  import opened Arith
  import opened Ops
  import opened RustFmt

  /** A pointer as it crosses the boundary: null, or an address Rust handed out. */
  datatype Ptr = Null | Addr(handle: nat)

  /** What an address holds. */
  datatype Allocation =
    | CResult(errorMessage: Ptr, success: Ptr)  // `struct CResult`, two nullable slots
    | CString(bytes: seq<byte>)                 // `CString::into_raw`: these bytes, then a NUL
    | BoxedI32(value: Int32)                    // `Box::into_raw` of an `i32`

  /** `CResult::default()`: both slots null. */
  const DefaultCResult: Allocation := CResult(Ptr.Null, Ptr.Null)

  type Heap = map<nat, Allocation>

  /** A default record has neither slot set: a host could read it (and
      would find no error and no value), but it is not yet a well-formed
      result, so `result_to_c` must set one slot first. */
  lemma DefaultCResultUnset(live: Heap, h: nat)
    requires h in live && live[h] == DefaultCResult
    ensures Readable(live, Addr(h)) && !WellFormed(live, h)
  {
  }

  /** The tagged-union invariant of a record handed to the caller: exactly one
      slot is set, and it points to another live allocation of its own kind. */
  predicate WellFormed(live: Heap, h: nat)
    ensures WellFormed(live, h) ==> Readable(live, Addr(h)) && (live[h].errorMessage.Addr? || live[h].success.Addr?)
  {
    && h in live && live[h].CResult?
    && (live[h].errorMessage.Null? != live[h].success.Null?)
    && (live[h].errorMessage.Addr? ==>
          var m := live[h].errorMessage.handle; m != h && m in live && live[m].CString?)
    && (live[h].success.Addr? ==>
          var b := live[h].success.handle; b != h && b in live && live[b].BoxedI32?)
  }

  /** What a host may hand to the record-reading code: null, or a live record
      whose error slot, when set, is another live allocation holding a C
      string. */
  predicate Readable(live: Heap, p: Ptr) {
    p.Addr? ==>
      && p.handle in live && live[p.handle].CResult?
      && (live[p.handle].errorMessage.Addr? ==>
            var m := live[p.handle].errorMessage.handle; m != p.handle && m in live && live[m].CString?)
  }

  /** The address in a record's set slot. */
  function Payload(rec: Allocation): (p: nat)
    requires rec.CResult? && (rec.errorMessage.Addr? || rec.success.Addr?)
  {
    if rec.errorMessage.Addr? then rec.errorMessage.handle else rec.success.handle
  }

  /** What `result_to_c` puts in the set slot: the boxed value, or the
      `{:?}` rendering of the error as a C string. */
  function Export(res: Result<Int32>): (a: Allocation)
    ensures res.Ok? <==> a.BoxedI32?
    ensures res.Ok? ==> a == BoxedI32(res.value)
    ensures a.CString? ==> 0 !in a.bytes && Decode(a.bytes) == Some(DebugText(res.error))
  {
    match res
    case Ok(v) => BoxedI32(v)
    case Err(e) => DecodeEncode(DebugText(e)); CString(Encode(DebugText(e)))
  }

  /** `after` is `before` with a fresh, well-formed record at `rec` whose set
      slot holds a fresh `Export(res)`, and nothing else changed. */
  predicate AddsRecord(before: Heap, after: Heap, rec: Ptr, res: Result<Int32>) {
    && rec.Addr? && rec.handle !in before && WellFormed(after, rec.handle)
    && (res.Ok? <==> after[rec.handle].success.Addr?)
    && var p := Payload(after[rec.handle]);
       p !in before && after == before[rec.handle := after[rec.handle]][p := Export(res)]
  }

  /** How a call of `c_operate` ends: with a record, or, when `operate`
      panics, with the process aborting (a panic cannot unwind out of an
      `extern "C"` function). */
  datatype Call = Completed(record: Ptr) | Aborted(panic: Panic)

  /** The Rust library as the host sees it: its exported functions and the
      allocations it has handed out. */
  class RustLib {
    var live: Heap
    var next: nat
    /** Whether the library was built with overflow checks (a debug build). */
    const overflowChecks: bool

    /** Every live address is below `next`, so `next` is always fresh, and
        every C string is one `CString::new` accepted: it holds no NUL before
        its terminator. */
    predicate Valid()
      reads this
    {
      && (forall h :: h in live ==> h < next)
      && (forall h :: h in live && live[h].CString? ==> 0 !in live[h].bytes)
    }

    constructor (overflowChecks: bool)
      ensures Valid() && live == map[] && this.overflowChecks == overflowChecks
    {
      live := map[];
      next := 0;
      this.overflowChecks := overflowChecks;
    }

    /** A fresh heap allocation holding `a`. */
    method Allocate(a: Allocation) returns (h: nat)
      requires Valid() && (a.CString? ==> 0 !in a.bytes)
      modifies this
      ensures Valid() && h !in old(live) && live == old(live)[h := a]
    {
      h := next;
      live := live[h := a];
      next := next + 1;
    }

    /** `return_string`: copies a string into a fresh C string. The `expect`
        on `CString::new` is the requirement that it holds no NUL. */
    method ReturnString(output: string) returns (p: Ptr)
      requires Valid() && '\0' !in output
      modifies this
      ensures Valid() && p.Addr? && p.handle !in old(live)
      ensures live == old(live)[p.handle := CString(Encode(output))]
    {
      var h := Allocate(CString(Encode(output)));
      p := Addr(h);
    }

    /** `result_to_c`: allocates a default record, then sets the slot the
        outcome calls for to a fresh allocation of its payload. */
    method ResultToC(res: Result<Int32>) returns (rec: Ptr)
      requires Valid()
      modifies this
      ensures Valid() && AddsRecord(old(live), live, rec, res)
    {
      var h := Allocate(DefaultCResult);
      match res {
        case Ok(item) =>
          var output := Allocate(BoxedI32(item));
          live := live[h := live[h].(success := Addr(output))];
        case Err(e) =>
          var errorMessage := DebugText(e);
          var p := ReturnString(errorMessage);
          live := live[h := live[h].(errorMessage := p)];
      }
      rec := Addr(h);
    }

    /** `c_operate`: `result_to_c(operate(op, x, y))`. */
    method COperate(op: RawPtr, x: Int32, y: Int32) returns (out: Call)
      requires Valid() && Terminated(op)
      modifies this
      ensures Valid()
      ensures Operate(op, x, y, overflowChecks).Panicked? ==>
                out == Aborted(Operate(op, x, y, overflowChecks).panic) && live == old(live)
      ensures Operate(op, x, y, overflowChecks).Returned? ==>
                out.Completed? && AddsRecord(old(live), live, out.record, Operate(op, x, y, overflowChecks).result)
    {
      var outcome := Operate(op, x, y, overflowChecks);
      if outcome.Panicked? {
        out := Aborted(outcome.panic);
      } else {
        var rec := ResultToC(outcome.result);
        out := Completed(rec);
      }
    }

    /** `free_str`: gives back one C string. */
    method FreeStr(p: Ptr)
      requires Valid() && p.Addr? && p.handle in live && live[p.handle].CString?
      modifies this
      ensures Valid() && live == old(live) - {p.handle}
    {
      live := live - {p.handle};
    }

    /** `free_c_result`: gives back the record alone, not what its slots
        point to. */
    method FreeCResult(p: Ptr)
      requires Valid() && p.Addr? && p.handle in live && live[p.handle].CResult?
      modifies this
      ensures Valid() && live == old(live) - {p.handle}
    {
      live := live - {p.handle};
    }

    /** `free_i32`: gives back one boxed `i32`. */
    method FreeI32(p: Ptr)
      requires Valid() && p.Addr? && p.handle in live && live[p.handle].BoxedI32?
      modifies this
      ensures Valid() && live == old(live) - {p.handle}
    {
      live := live - {p.handle};
    }
  }
}
