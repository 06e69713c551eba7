/** A single binary possibility: a cell holding 0, 1 or "superposition"
    (None in the Python program). */
module Possibility {
  import opened Wrappers

  /** The three states a cell can hold; Superposed is Python's None. */
  datatype State = Zero | One | Superposed

  /** The two exception kinds the program raises, with their messages. */
  datatype Error = ValueError(message: string) | IndexError(message: string)

  const InvalidStateMessage := "Invalid state. Must be 0, 1, or None."

  /** A state as the Python program stores and returns it: 0, 1 or None. */
  function Encode(s: State): (raw: Option<int>)
    ensures raw.None? <==> s == Superposed
  {
    match s
    case Zero => Some(0)
    case One => Some(1)
    case Superposed => None
  }

  /** Whether a raw value passes the check `state in (0, 1, None)`. */
  predicate IsValidRaw(raw: Option<int>)
  {
    raw.None? || raw.value == 0 || raw.value == 1
  }

  /** The validation done by the constructor and by `set_state`: a raw
      value outside 0, 1 and None raises ValueError; any other raw value
      is the encoding of exactly one state. */
  function Parse(raw: Option<int>): (r: Result<State, Error>)
    ensures r.Success? <==> IsValidRaw(raw)
    ensures r.Success? ==> Encode(r.value) == raw
    ensures r.Failure? ==> r.error == ValueError(InvalidStateMessage)
  {
    match raw
    case None => Success(Superposed)
    case Some(b) =>
      if b == 0 then Success(Zero)
      else if b == 1 then Success(One)
      else Failure(ValueError(InvalidStateMessage))
  }

  /** Encoding a state and validating it again gives the state back. */
  lemma ParseEncode(s: State)
    ensures Parse(Encode(s)) == Success(s)
  {
  }

  class BinaryPossibility {
    var state: State

    /** Builds a cell holding a state that is already known to be valid. */
    constructor Init(s: State)
      ensures state == s
    {
      state := s;
    }

    /** `BinaryPossibility(state=None)`: raises ValueError unless the state
        is 0, 1 or None, otherwise a new cell holding it. */
    static method New(raw: Option<int> := None) returns (r: Result<BinaryPossibility, Error>)
      ensures r.Failure? <==> !IsValidRaw(raw)
      ensures r.Failure? ==> r.error == ValueError(InvalidStateMessage)
      ensures r.Success? ==> fresh(r.value) && Encode(r.value.state) == raw
    {
      var parsed := Parse(raw);
      if parsed.Failure? {
        r := Failure(parsed.error);
      } else {
        var cell := new BinaryPossibility.Init(parsed.value);
        r := Success(cell);
      }
    }

    /** `set_state`: raises ValueError (leaving the cell as it was) unless
        the state is 0, 1 or None; otherwise stores it. */
    method SetState(raw: Option<int>) returns (r: Outcome<Error>)
      modifies this
      ensures r.Fail? <==> !IsValidRaw(raw)
      ensures r.Fail? ==> r.error == ValueError(InvalidStateMessage) && state == old(state)
      ensures r.Pass? ==> Encode(state) == raw
    {
      match Parse(raw)
      case Failure(e) =>
        r := Fail(e);
      case Success(s) =>
        state := s;
        r := Pass;
    }

    /** `is_superposition`: true exactly when the stored raw state is None. */
    predicate IsSuperposition()
      reads this
      ensures IsSuperposition() <==> Encode(state).None?
    {
      state == Superposed
    }
  }

  /** The states held by a sequence of cells, in order. */
  function States(cells: seq<BinaryPossibility>): (s: seq<State>)
    reads set c | c in cells
    ensures |s| == |cells|
    ensures forall j :: 0 <= j < |cells| ==> s[j] == cells[j].state
  {
    seq(|cells|, j requires 0 <= j < |cells| reads cells => cells[j].state)
  }
}
