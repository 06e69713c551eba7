# BinaryPossibility in Dafny

A verified model of `binarypossibilitytrees.py`, the whole of the
BinaryPossibility repository. A `BinaryPossibility` is a cell holding 0, 1
or `None`, where `None` stands for "superposition". A `BinaryRegister` owns
an ordered list of these cells. It grows and shrinks at the tail and reads
and writes cells by index, with bounds checks. `enumerate_states` expands
the register depth-first into every concrete bit-string consistent with its
cells: a superposed cell branches into "0" and then "1", and a determined
cell contributes its own bit.

Files and modules:

- `wrappers.dfy` (`Wrappers`): `Option`, `Result` and `Outcome`. They stand
  in for Python's `None` and for the exceptions the program raises.
- `possibility.dfy` (`Possibility`): the three-valued `State`, the
  `ValueError`/`IndexError` errors with the program's messages, the
  validation `Parse` of a raw value (`Option<int>`, so `None` is
  superposition and any integer other than 0 and 1 is rejected), and the
  class `BinaryPossibility`.
- `enumeration.dfy` (`Enumeration`): the expansion as pure functions on
  the sequence of cell states (`Expand` is the nested `generate_states`,
  `Enumerate` is `enumerate_states`), and the lemmas about them.
- `register.dfy` (`Register`): the class `BinaryRegister`. Its field
  `possibilities` is a sequence of cell objects that the methods reassign
  and whose cells `set_bit` updates in place. `Valid()` says the register
  owns its cells: no cell appears at two positions. `Contents()` is the
  sequence of their states.
- `scenarios.dfy` (`Scenarios`): chains of register calls whose combined
  effect the program promises.

Python constructors that can raise become static `New` methods returning a
`Result`. `get_bit` returns the raw state (`Some(0)`, `Some(1)` or `None`),
as the Python method returns the stored `0`, `1` or `None`.

Behaviour the model keeps from the program:

- A non-positive register size raises `ValueError`
  (binarypossibilitytrees.py:46-47).
- `remove_bit` on an empty register raises `IndexError`
  (binarypossibilitytrees.py:60-61).
- `get_individual_states` returns a shallow copy of the list, holding the
  very same cell objects as the register (binarypossibilitytrees.py:108).

## Model

| member | source | states |
|---|---|---|
| `Possibility.Parse` | binarypossibilitytrees.py:10-11 | a raw state is accepted exactly when it is 0, 1 or None; an accepted value is the encoding of the state returned, and a rejected one gives ValueError with the program's message |
| `Possibility.ParseEncode` | binarypossibilitytrees.py:10-12 | validating the stored form of any state gives that state back |
| `Possibility.BinaryPossibility.New` | binarypossibilitytrees.py:6-12 | construction (state defaulting to None) fails with ValueError exactly when the state is not 0, 1 or None; otherwise a fresh cell storing that state |
| `Possibility.BinaryPossibility.SetState` | binarypossibilitytrees.py:14-20 | an invalid state raises ValueError and leaves the cell unchanged; a valid one is stored |
| `Possibility.BinaryPossibility.IsSuperposition` | binarypossibilitytrees.py:22-26 | true exactly when the stored raw state is None |
| `Register.BinaryRegister.Make` | binarypossibilitytrees.py:48 | builds a register of `numBits` fresh, distinct cells, all superposed |
| `Register.BinaryRegister.New` | binarypossibilitytrees.py:42-48 | fails with ValueError exactly when `num_bits <= 0`; otherwise a fresh valid register of `num_bits` superposed cells |
| `Register.BinaryRegister.AddBit` | binarypossibilitytrees.py:50-54 | length grows by one, the new last cell is superposed and fresh, and the earlier cells are the same objects with the same states |
| `Register.BinaryRegister.RemoveBit` | binarypossibilitytrees.py:56-62 | raises IndexError exactly on an empty register, which it leaves unchanged; otherwise drops the last cell, which the register no longer owns, and keeps the prefix |
| `Register.BinaryRegister.SetBit` | binarypossibilitytrees.py:64-72 | an index outside [0, length), negative ones included, raises IndexError whatever the state; then an invalid state raises ValueError; failures change nothing; success changes only the cell at the index, to the given state |
| `Register.BinaryRegister.GetBit` | binarypossibilitytrees.py:74-80 | fails with IndexError exactly when the index is outside [0, length); otherwise returns the raw state of the cell at the index |
| `Register.BinaryRegister.GenerateStates` | binarypossibilitytrees.py:90-99 | the recursive accumulation appends to the list exactly the strings of the expansion `Expand`, in its order |
| `Register.BinaryRegister.EnumerateStates` | binarypossibilitytrees.py:82-102 | an empty register gives []; otherwise 2^k strings for k superposed cells; a string is in the result exactly when it matches the cells; the result is strictly ascending and has no duplicates; the method changes no state |
| `Register.BinaryRegister.GetIndividualStates` | binarypossibilitytrees.py:104-108 | returns the register's own cell objects, whose states are the register's contents |
| `Enumeration.Expand` | binarypossibilitytrees.py:90-99 | the expansion from position i yields 2 to the power of the number of superposed cells from i on |
| `Enumeration.Enumerate` | binarypossibilitytrees.py:86-101 | the result is empty exactly when the register is empty, and otherwise has 2^k strings |
| `Enumeration.ExpandMembers` | binarypossibilitytrees.py:90-99 | a string is produced from position i with prefix `partial` exactly when it is `partial` followed by a bit-string consistent with the cells from i on |
| `Enumeration.ExpandPrefix` | binarypossibilitytrees.py:90-99 | every produced string starts with `partial` and has length `len(partial) + n - i` |
| `Enumeration.ExpandAscending` | binarypossibilitytrees.py:94-99 | exploring "0" before "1" makes the produced list strictly ascending in string order |
| `Enumeration.ExpandDetermined` | binarypossibilitytrees.py:97-99 | with no superposed cell from i on, the expansion is the single string `partial` followed by those cells' bits |
| `Enumeration.EnumerateMembers` | binarypossibilitytrees.py:82-101 | a string is enumerated exactly when the register is non-empty and the string matches it: same length, only "0"/"1", and each determined cell's bit at its position |
| `Enumeration.EnumerateShape` | binarypossibilitytrees.py:98 | every enumerated string has the register's length, uses only "0" and "1", and has "0" where the cell is 0 and "1" where it is 1 |
| `Enumeration.EnumerateAscending` | binarypossibilitytrees.py:94-99 | the enumeration is strictly ascending in string order and so its strings are distinct |
| `Enumeration.EnumerateDetermined` | binarypossibilitytrees.py:97-99 | a non-empty register with no superposed cell enumerates to the single string of its bits in order |
| `Enumeration.CountAllSuperposed` | binarypossibilitytrees.py:48 | all n cells of a freshly built register are superposed |
| `Enumeration.EnumerateFresh` | binarypossibilitytrees.py:46-48 | a fresh register of n bits enumerates 2^n strings, exactly the bit-strings of length n |
| `Enumeration.EnumerateExample` | binarypossibilitytrees.py:94-99 | cells [None, 1, None] enumerate to ["010", "011", "110", "111"] |
| `Scenarios.AddThenRemove` | binarypossibilitytrees.py:50-62 | `add_bit` then `remove_bit` succeeds and restores the same cells with the same states |
| `Scenarios.SetThenGet` | binarypossibilitytrees.py:64-80 | after `set_bit(i, v)` with a valid index and state, `get_bit(i)` returns v; every other cell keeps its state; an invalid state changes nothing |
| `Scenarios.EnumerateTwice` | binarypossibilitytrees.py:82-102 | two consecutive enumerations of an unchanged register return the same list |

## Left out

- `BinaryPossibility.__str__` (display formatting only) is not modelled.
  Its quirk that state 0 prints as "Possibility: |1>" is not reproduced.
- Python's dynamic typing: `True`, `False`, `0.0` and `1.0` compare equal
  to 0 and 1, so they pass the state check. The model takes a raw state as
  `Option<int>` and an index as an `int`. A non-integer index such as `1.0`
  would pass the range check and then fail at list indexing, and a
  non-integer `num_bits` such as `2.5` passes the size check and then
  raises TypeError in `range`; neither is modelled, since the model takes
  `num_bits` as an `int`.
- Mutation through the list that `get_individual_states` returns: the model
  returns the same cell objects, but states nothing about later changes
  made through them.
- Recursion depth and Python's stack limit are not modelled.
- There is no I/O and no concurrency in the program.
