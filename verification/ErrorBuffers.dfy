/** Double-buffered path metrics. */
module ErrorBuffers {
  import opened Bits

  class ErrorBuffer {
    const numStates: nat
    const errors0: array<uint16>
    const errors1: array<uint16>
    var index: nat
    var readErrors: array<uint16>
    var writeErrors: array<uint16>

    ghost predicate Valid()
      reads this
    {
      && errors0 != errors1 && errors0.Length == errors1.Length == numStates && index < 2
      && (Unswapped() || (writeErrors == Errors(index) && readErrors == Errors(1 - index)))
    }

    /** After a reset the index is one behind the buffer written to. */
    ghost predicate Unswapped()
      reads this
    {
      index == 0 && readErrors == errors0 && writeErrors == errors1
    }

    function Errors(i: nat): array<uint16> {
      if i == 0 then errors0 else errors1
    }

    constructor (numStates: nat)
      ensures Valid() && Unswapped() && this.numStates == numStates && fresh(errors0) && fresh(errors1)
    {
      this.numStates := numStates;
      var e0 := new uint16[numStates](_ => 0);
      var e1 := new uint16[numStates](_ => 0);
      errors0, errors1 := e0, e1;
      index, readErrors, writeErrors := 0, e0, e1;
    }

    method Reset()
      requires Valid()
      modifies this, errors0, errors1
      ensures Valid() && Unswapped()
      ensures forall s :: 0 <= s < numStates ==> readErrors[s] == writeErrors[s] == 0
    {
      for s := 0 to numStates
        invariant forall r :: 0 <= r < s ==> errors0[r] == errors1[r] == 0
      {
        errors0[s] := 0;
        errors1[s] := 0;
      }
      index, readErrors, writeErrors := 0, errors0, errors1;
    }

    /** Exchange the buffers, except the first time after a reset, when both stay in place. */
    method Swap()
      requires Valid()
      modifies this
      ensures Valid() && !Unswapped()
      ensures old(Unswapped()) ==> readErrors == old(readErrors) && writeErrors == old(writeErrors)
      ensures !old(Unswapped()) ==> readErrors == old(writeErrors) && writeErrors == old(readErrors)
    {
      readErrors := Errors(index);
      index := (index + 1) % 2;
      writeErrors := Errors(index);
    }
  }
}
