/** Sequences of register operations whose combined effect the program
    promises. */
module Scenarios {
  import opened Wrappers
  import opened Possibility
  import opened Enumeration
  import opened Register

  /** `add_bit` followed by `remove_bit` gives back the register it
      started from: the same cells, holding the same states. */
  method AddThenRemove(reg: BinaryRegister) returns (r: Outcome<Error>)
    requires reg.Valid()
    modifies reg
    ensures reg.Valid() && r == Pass
    ensures reg.possibilities == old(reg.possibilities)
    ensures reg.Contents() == old(reg.Contents())
  {
    reg.AddBit();
    r := reg.RemoveBit();
  }

  /** `set_bit(index, state)` followed by `get_bit(index)`: for an index in
      range and a valid state, the state read back is the one written and
      every other cell keeps its state; otherwise the register is left as
      it was and the read fails exactly when the index is out of range. */
  method SetThenGet(reg: BinaryRegister, index: int, raw: Option<int>) returns (got: Result<Option<int>, Error>)
    requires reg.Valid()
    modifies reg.Repr
    ensures reg.Valid()
    ensures 0 <= index < |reg.possibilities| && IsValidRaw(raw) ==> got == Success(raw)
    ensures !(0 <= index < |reg.possibilities|) ==> got == Failure(IndexError(InvalidIndexMessage))
    ensures |reg.Contents()| == |old(reg.Contents())|
    ensures forall j :: 0 <= j < |reg.Contents()| && j != index ==> reg.Contents()[j] == old(reg.Contents())[j]
    ensures !IsValidRaw(raw) ==> reg.Contents() == old(reg.Contents())
  {
    var r := reg.SetBit(index, raw);
    got := reg.GetBit(index);
  }

  /** Two consecutive `enumerate_states` calls on an unchanged register
      return the same list: the enumeration depends on the cell states only. */
  method EnumerateTwice(reg: BinaryRegister) returns (first: seq<string>, second: seq<string>)
    requires reg.Valid()
    ensures first == second
    ensures first == Enumerate(reg.Contents())
  {
    first := reg.EnumerateStates();
    second := reg.EnumerateStates();
  }
}
