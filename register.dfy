/** `BinaryRegister`: an ordered list of cells that it owns, grown and
    shrunk at the tail, read and written by index, and enumerated. */
module Register {
  import opened Wrappers
  import opened Possibility
  import opened Enumeration

  const NonPositiveSizeMessage := "Number of bits must be positive."
  const EmptyRegisterMessage := "Cannot remove bit from empty register."
  const InvalidIndexMessage := "Invalid bit index."

  class BinaryRegister {
    var possibilities: seq<BinaryPossibility>
    ghost var Repr: set<object>

    /** The register owns its cells: each is in its footprint, and no cell
        appears at two positions. */
    ghost predicate Valid()
      reads this, Repr
    {
      this in Repr &&
      (forall j :: 0 <= j < |possibilities| ==> possibilities[j] in Repr) &&
      (forall j, k :: 0 <= j < k < |possibilities| ==> possibilities[j] != possibilities[k])
    }

    /** The states of the cells, in order. */
    ghost function Contents(): seq<State>
      reads this, Repr
      requires Valid()
    {
      States(possibilities)
    }

    /** Builds `numBits` fresh superposed cells. */
    constructor Make(numBits: nat)
      ensures Valid() && fresh(Repr)
      ensures Contents() == seq(numBits, _ => Superposed)
    {
      var cells: seq<BinaryPossibility> := [];
      ghost var made: set<object> := {};
      while |cells| < numBits
        invariant |cells| <= numBits
        invariant forall j :: 0 <= j < |cells| ==> cells[j] in made && cells[j].state == Superposed
        invariant forall j, k :: 0 <= j < k < |cells| ==> cells[j] != cells[k]
        invariant fresh(made)
      {
        var cell := new BinaryPossibility.Init(Superposed);
        cells := cells + [cell];
        made := made + {cell};
      }
      possibilities := cells;
      Repr := {this} + made;
    }

    /** `BinaryRegister(num_bits)`: raises ValueError for a non-positive
        size, otherwise a register of `num_bits` superposed cells. */
    static method New(numBits: int) returns (r: Result<BinaryRegister, Error>)
      ensures r.Failure? <==> numBits <= 0
      ensures r.Failure? ==> r.error == ValueError(NonPositiveSizeMessage)
      ensures r.Success? ==> fresh(r.value) && fresh(r.value.Repr) && r.value.Valid()
      ensures r.Success? ==> r.value.Contents() == seq(numBits, _ => Superposed)
    {
      if numBits <= 0 {
        r := Failure(ValueError(NonPositiveSizeMessage));
      } else {
        var reg := new BinaryRegister.Make(numBits);
        r := Success(reg);
      }
    }

    /** `add_bit`: appends a fresh superposed cell; the earlier cells are
        the same objects with the same states. */
    method AddBit()
      requires Valid()
      modifies this
      ensures Valid() && fresh(Repr - old(Repr))
      ensures Contents() == old(Contents()) + [Superposed]
      ensures possibilities[..|old(possibilities)|] == old(possibilities)
      ensures fresh(possibilities[|possibilities| - 1])
    {
      var cell := new BinaryPossibility.Init(Superposed);
      possibilities := possibilities + [cell];
      Repr := Repr + {cell};
    }

    /** `remove_bit`: raises IndexError on an empty register, otherwise
        drops the last cell and keeps the rest. */
    method RemoveBit() returns (r: Outcome<Error>)
      requires Valid()
      modifies this
      ensures Valid() && Repr <= old(Repr)
      ensures r.Fail? <==> old(|possibilities|) == 0
      ensures r.Pass? ==> old(possibilities)[|old(possibilities)| - 1] !in Repr
      ensures r.Fail? ==> r.error == IndexError(EmptyRegisterMessage) && Contents() == old(Contents())
      ensures r.Pass? ==> possibilities == old(possibilities)[..|old(possibilities)| - 1]
      ensures r.Pass? ==> Contents() == old(Contents())[..|old(Contents())| - 1]
    {
      if |possibilities| == 0 {
        return Fail(IndexError(EmptyRegisterMessage));
      }
      Repr := Repr - {possibilities[|possibilities| - 1]};
      possibilities := possibilities[..|possibilities| - 1];
      r := Pass;
    }

    /** `set_bit`: the index is checked first (IndexError for anything
        outside [0, length), negative indices included), then the state
        (ValueError); on success only the cell at `index` changes. */
    method SetBit(index: int, raw: Option<int>) returns (r: Outcome<Error>)
      requires Valid()
      modifies Repr
      ensures Valid() && Repr == old(Repr) && possibilities == old(possibilities)
      ensures !(0 <= index < |possibilities|) ==> r == Fail(IndexError(InvalidIndexMessage))
      ensures 0 <= index < |possibilities| && !IsValidRaw(raw) ==> r == Fail(ValueError(InvalidStateMessage))
      ensures r.Fail? ==> Contents() == old(Contents())
      ensures r.Pass? <==> 0 <= index < |possibilities| && IsValidRaw(raw)
      ensures r.Pass? ==> Contents() == old(Contents())[index := Parse(raw).value]
    {
      if !(0 <= index < |possibilities|) {
        return Fail(IndexError(InvalidIndexMessage));
      }
      if !IsValidRaw(raw) {
        return Fail(ValueError(InvalidStateMessage));
      }
      r := possibilities[index].SetState(raw);
    }

    /** `get_bit`: raises IndexError for anything outside [0, length),
        otherwise the raw state (0, 1 or None) of the cell at `index`. */
    method GetBit(index: int) returns (r: Result<Option<int>, Error>)
      requires Valid()
      ensures r.Success? <==> 0 <= index < |possibilities|
      ensures r.Failure? ==> r.error == IndexError(InvalidIndexMessage)
      ensures r.Success? ==> r.value == Encode(Contents()[index])
    {
      if !(0 <= index < |possibilities|) {
        return Failure(IndexError(InvalidIndexMessage));
      }
      r := Success(Encode(possibilities[index].state));
    }

    /** The nested `generate_states(i, partial_state)`: appends to `states`
        the strings `Expand` describes. */
    method GenerateStates(i: nat, partial: string, states: seq<string>) returns (out: seq<string>)
      requires Valid() && i <= |possibilities|
      ensures out == states + Expand(Contents(), i, partial)
      decreases |possibilities| - i
    {
      if i == |possibilities| {
        return states + [partial];
      }
      if possibilities[i].IsSuperposition() {
        out := GenerateStates(i + 1, partial + "0", states);
        out := GenerateStates(i + 1, partial + "1", out);
      } else {
        var bit := if possibilities[i].state == Zero then "0" else "1";
        out := GenerateStates(i + 1, partial + bit, states);
      }
    }

    /** `enumerate_states`: every bit-string consistent with the cells, in
        depth-first order with 0 before 1. It changes nothing. */
    method EnumerateStates() returns (states: seq<string>)
      requires Valid()
      ensures states == Enumerate(Contents())
      ensures |possibilities| == 0 ==> states == []
      ensures |possibilities| > 0 ==> |states| == Pow2(CountSuperposed(Contents()))
      ensures forall w :: w in states <==> |possibilities| > 0 && Matches(Contents(), w)
      ensures StrictlyAscending(states) && Distinct(states)
    {
      if |possibilities| == 0 {
        return [];
      }
      states := GenerateStates(0, "", []);
      forall w ensures w in states <==> Matches(Contents(), w) {
        EnumerateMembers(Contents(), w);
      }
      EnumerateAscending(Contents());
    }

    /** `get_individual_states`: a shallow copy of the cell list, so the
        very same cell objects, holding the register's states. */
    method GetIndividualStates() returns (cells: seq<BinaryPossibility>)
      requires Valid()
      ensures cells == possibilities
      ensures States(cells) == Contents()
    {
      cells := possibilities;
    }
  }
}
