/** The interchangeable output functions of the formatter, and the calls made to them. */
module PrintfSink {
  /** One call of an output function: a character and its index. */
  datatype Call = Call(c: char, idx: nat)

  /** `_out_buffer`, `_out_null`, `_out_char` and `_out_fct`. */
  datatype OutFct = OutBuffer | OutNull | OutChar | OutCallback

  /** The `buffer` argument: null, caller's memory, or the wrapped callback. */
  datatype Destination = Null | Memory(cells: array<char>) | Wrapped

  /** The effect of one `_out_buffer` call on memory; a store outside of it is dropped. */
  function Store(memory: string, call: Call, maxlen: nat): (r: string)
    ensures |r| == |memory|
  {
    if call.idx < maxlen && call.idx < |memory| then memory[call.idx := call.c] else memory
  }

  function StoreAll(memory: string, calls: seq<Call>, maxlen: nat): (r: string)
    ensures |r| == |memory|
  {
    if calls == [] then memory else Store(StoreAll(memory, calls[..|calls| - 1], maxlen), calls[|calls| - 1], maxlen)
  }

  /** No store leaves the memory. */
  predicate InBounds(calls: seq<Call>, maxlen: nat, size: nat) {
    forall k :: 0 <= k < |calls| && calls[k].idx < maxlen ==> calls[k].idx < size
  }

  /** The characters a callback is given: NUL is dropped. */
  function Delivered(calls: seq<Call>): string {
    if calls == [] then ""
    else
      var n := |calls| - 1;
      Delivered(calls[..n]) + if calls[n].c == '\0' then "" else [calls[n].c]
  }

  function WithoutNul(s: string): string {
    if s == "" then "" else WithoutNul(s[..|s| - 1]) + if s[|s| - 1] == '\0' then "" else [s[|s| - 1]]
  }

  /** An output stream: which function, where to, and the bound it is given. */
  class Sink {
    const dest: Destination
    const maxlen: nat
    var fct: OutFct
    /** What the callback received. */
    var received: string
    ghost const initial: string
    ghost var calls: seq<Call>

    ghost function Cells(): set<object> { if dest.Memory? then {dest.cells} else {} }

    /** Memory and callback hold exactly what the calls so far put there. */
    ghost predicate Valid()
      reads this, Cells()
    {
      && (fct == OutBuffer ==> dest.Memory?)
      && (dest.Memory? ==> dest.cells[..] == if fct == OutBuffer then StoreAll(initial, calls, maxlen) else initial)
      && received == if fct == OutCallback then Delivered(calls) else ""
    }

    /** The calls carry the indices 0, 1, 2, ... */
    ghost predicate InStep()
      reads this
    {
      forall k :: 0 <= k < |calls| ==> calls[k].idx == k
    }

    ghost function Text(): string
      reads this
    {
      seq(|calls|, k requires 0 <= k < |calls| reads this => calls[k].c)
    }

    constructor (fct: OutFct, dest: Destination, maxlen: nat)
      requires fct == OutBuffer && !dest.Null? ==> dest.Memory?
      ensures this.fct == (if dest.Null? then OutNull else fct)
      ensures this.dest == dest && this.maxlen == maxlen
      ensures Valid() && InStep() && calls == [] && Text() == ""
      ensures dest.Memory? ==> initial == dest.cells[..]
    {
      this.fct := if dest.Null? then OutNull else fct;
      this.dest := dest;
      this.maxlen := maxlen;
      received := "";
      initial := if dest.Memory? then dest.cells[..] else "";
      calls := [];
    }

    /** One call of the output function. */
    method Out(c: char, idx: nat)
      requires Valid()
      modifies this`received, this`calls, Cells()
      ensures Valid() && calls == old(calls) + [Call(c, idx)]
    {
      match fct {
        case OutBuffer =>
          if idx < maxlen && idx < dest.cells.Length {
            dest.cells[idx] := c;
          }
        case OutCallback =>
          if c != '\0' {
            received := received + [c];
          }
        case _ =>
      }
      calls := calls + [Call(c, idx)];
      assert calls[..|calls| - 1] == old(calls);
    }

    /** The next character of the text: `out(c, buffer, idx++, maxlen)`. */
    method Put(c: char, idx: nat) returns (next: nat)
      requires Valid() && InStep() && idx == |calls|
      modifies this`received, this`calls, Cells()
      ensures Valid() && InStep() && next == |calls| == idx + 1
      ensures Text() == old(Text()) + [c]
    {
      Out(c, idx);
      next := idx + 1;
    }
  }
}
