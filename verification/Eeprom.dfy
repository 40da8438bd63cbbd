/**
 Emulated EEPROM: an array of octets in memory, filled from flash on first use and
 written back by `commit`. The record in flash is the array and a validity octet.
 */
module Eeprom {
  import opened Nvm
  import FlashStorage

  const SIZE := 1024

  // ---------- the plain persistent array ----------

  datatype Op = Read(address: nat) | Write(address: nat, value: cell) | Commit | Restart

  ghost predicate InRange(ops: seq<Op>) {
    forall i :: 0 <= i < |ops| && (ops[i].Read? || ops[i].Write?) ==> ops[i].address < SIZE
  }

  /** What is read at `a`: the last value written there since the last restart, or
      else what was saved at the last commit. */
  function Current(ops: seq<Op>, a: nat): cell {
    if ops == [] then (0xFF as cell)
    else
      var before := ops[..|ops| - 1];
      match ops[|ops| - 1]
      case Write(address, value) => if address == a then value else Current(before, a)
      case Restart => Saved(before, a)
      case _ => Current(before, a)
  }

  /** What the last commit saved; 0xFF when there was none. */
  function Saved(ops: seq<Op>, a: nat): cell {
    if ops == [] then (0xFF as cell)
    else
      var before := ops[..|ops| - 1];
      match ops[|ops| - 1]
      case Commit => Current(before, a)
      case _ => Saved(before, a)
  }

  /** What the reads of a run answer. */
  function Answers(ops: seq<Op>): seq<cell> {
    if ops == [] then []
    else
      var before := ops[..|ops| - 1];
      match ops[|ops| - 1]
      case Read(address) => Answers(before) + [Current(before, address)]
      case _ => Answers(before)
  }

  /** A write since the last restart has changed a cell. */
  predicate Changed(ops: seq<Op>) {
    ops != [] &&
    var before := ops[..|ops| - 1];
    match ops[|ops| - 1]
    case Write(address, value) => Changed(before) || Current(before, address) != value
    case Restart => false
    case _ => Changed(before)
  }

  /** What `isValid` answers. */
  predicate Marked(ops: seq<Op>) {
    ops != [] &&
    var before := ops[..|ops| - 1];
    match ops[|ops| - 1]
    case Commit => Marked(before) || Changed(before)
    case _ => Marked(before)
  }

  /** `isValid` says that a commit found a changed cell. */
  lemma {:induction false} MarkedExactly(ops: seq<Op>)
    ensures Marked(ops) <==> exists i :: 0 <= i < |ops| && ops[i] == Commit && Changed(ops[..i])
  {
    if ops != [] {
      var before := ops[..|ops| - 1];
      MarkedExactly(before);
      forall i | 0 <= i < |before|
        ensures before[i] == ops[i] && before[..i] == ops[..i]
      {
      }
    }
  }

  /** It does not say that something was written and committed: octets of 0xFF
      written to a new EEPROM change nothing. */
  lemma BlankWritesUnmarked(address: nat)
    ensures !Marked([Write(address, 0xFF), Commit])
  {
    var write := [Write(address, 0xFF)];
    assert write[..0] == [] && !Changed(write) && !Marked(write);
    assert [Write(address, 0xFF), Commit][..1] == write;
  }

  // ---------- the cache over flash ----------

  class EepromClass {
    const storage: FlashStorage.Storage
    const data: array<cell>
    var validFlag: cell
    var initialized: bool
    var dirty: bool

    constructor (storage: FlashStorage.Storage)
      ensures this.storage == storage && !initialized && !dirty
      ensures fresh(data) && data.Length == SIZE
    {
      this.storage := storage;
      data := new cell[SIZE];
      validFlag, initialized, dirty := 0, false, false;
    }

    ghost predicate Separate()
      reads this
    {
      && data.Length == SIZE && storage.size == SIZE + 1
      && data != storage.flash.nvm.cells && data != storage.flash.nvm.pageBuffer
      && this as object != storage.flash.nvm
    }

    /** The flash holds a record, and memory agrees with it unless it is dirty. */
    ghost predicate Valid()
      reads this, data, storage.flash.nvm, storage.flash.nvm.cells
    {
      && Separate() && storage.Valid()
      && (dirty ==> initialized)
      && (initialized && !dirty ==> data[..] == SavedData() && (validFlag != 0 <==> SavedFlag() != 0))
    }

    /** The validity octet in flash. */
    ghost function SavedFlag(): cell
      requires Separate() && storage.Valid()
      reads this, storage.flash.nvm, storage.flash.nvm.cells
    {
      storage.flash.nvm.cells[storage.base + SIZE]
    }

    /** What a restart would find. */
    ghost function SavedData(): (s: seq<cell>)
      requires Separate() && storage.Valid()
      reads this, storage.flash.nvm, storage.flash.nvm.cells
      ensures |s| == SIZE
    {
      if SavedFlag() != 0 then storage.flash.nvm.cells[storage.base..storage.base + SIZE] else Blank(SIZE)
    }

    /** What `read` answers. */
    ghost function CurrentData(): (s: seq<cell>)
      requires Valid()
      reads this, data, storage.flash.nvm, storage.flash.nvm.cells
      ensures |s| == SIZE
    {
      if initialized then data[..] else SavedData()
    }

    ghost function CurrentFlag(): bool
      requires Valid()
      reads this, data, storage.flash.nvm, storage.flash.nvm.cells
    {
      (if initialized then validFlag else SavedFlag()) != 0
    }

    method Init()
      requires Valid() && !initialized
      modifies this`validFlag, this`initialized, data
      ensures Valid() && initialized && !dirty
      ensures data[..] == SavedData() && (validFlag != 0 <==> SavedFlag() != 0)
    {
      var record := storage.Read();
      assert SavedFlag() == record[SIZE];
      assert record[SIZE] != 0 ==> SavedData() == record[..SIZE];
      ghost var saved, flag := SavedData(), SavedFlag();
      for i := 0 to SIZE
        invariant data[..i] == record[..i]
      {
        data[i] := record[i];
      }
      validFlag := record[SIZE];
      if validFlag == 0 {
        for i := 0 to SIZE
          invariant data[..i] == Blank(i) && validFlag == 0
        {
          data[i] := 0xFF;
        }
      }
      assert SavedData() == saved && SavedFlag() == flag;
      assert data[..] == data[..SIZE];
      initialized := true;
    }

    method Read(address: nat) returns (value: cell)
      requires Valid() && address < SIZE
      modifies this`validFlag, this`initialized, data
      ensures Valid() && CurrentData() == old(CurrentData()) && CurrentFlag() == old(CurrentFlag())
      ensures value == CurrentData()[address] && dirty == old(dirty)
    {
      if !initialized {
        Init();
      }
      value := data[address];
    }

    /** Changes memory only. A value that is there already does not make it dirty. */
    method Update(address: nat, value: cell)
      requires Valid() && address < SIZE
      modifies this`validFlag, this`initialized, this`dirty, data
      ensures Valid() && CurrentData() == old(CurrentData())[address := value]
      ensures CurrentFlag() == old(CurrentFlag())
      ensures dirty == (old(dirty) || old(CurrentData())[address] != value)
    {
      if !initialized {
        Init();
      }
      if data[address] != value {
        dirty := true;
        data[address] := value;
      }
      assert data[..] == old(CurrentData())[address := value];
    }

    method IsValid() returns (r: bool)
      requires Valid()
      modifies this`validFlag, this`initialized, data
      ensures Valid() && CurrentData() == old(CurrentData()) && CurrentFlag() == old(CurrentFlag())
      ensures r == CurrentFlag()
    {
      if !initialized {
        Init();
      }
      r := validFlag != 0;
    }

    /** Writes memory back when it is dirty. `beyond` is what memory holds after the
        record. */
    method Commit(beyond: seq<cell>)
      requires Valid() && |beyond| == 3
      modifies this`validFlag, this`initialized, data
      modifies storage.flash.nvm, storage.flash.nvm.pageBuffer, storage.flash.nvm.cells
      ensures Valid() && CurrentData() == old(CurrentData()) && SavedData() == old(CurrentData())
      ensures CurrentFlag() == (old(CurrentFlag()) || old(dirty)) == (SavedFlag() != 0)
    {
      if !initialized {
        Init();
      }
      if dirty {
        validFlag := 1;
        storage.Write(data[..] + [validFlag], beyond);
        ghost var m := storage.flash.nvm.cells[..];
        assert m[storage.base..storage.base + SIZE + 1] == data[..] + [validFlag];
        assert SavedFlag() == (data[..] + [validFlag])[SIZE];
        assert SavedData() == (data[..] + [validFlag])[..SIZE];
      }
    }
  }

  /** The emulation stands where the plain array stands after `ops`. */
  ghost predicate Agrees(e: EepromClass, ops: seq<Op>)
    reads e, e.data, e.storage.flash.nvm, e.storage.flash.nvm.cells
  {
    && e.Valid()
    && (forall a :: 0 <= a < SIZE ==> e.CurrentData()[a] == Current(ops, a))
    && (forall a :: 0 <= a < SIZE ==> e.SavedData()[a] == Saved(ops, a))
    && e.CurrentFlag() == (e.SavedFlag() != 0) == Marked(ops) && e.dirty == Changed(ops)
  }

  /** One operation; a restart is a new object over the same flash. */
  method Perform(e: EepromClass, op: Op, beyond: seq<cell>, ghost before: seq<Op>)
      returns (r: EepromClass, answer: seq<cell>)
    requires Agrees(e, before) && InRange([op]) && |beyond| == 3
    modifies e, e.data
    modifies e.storage.flash.nvm, e.storage.flash.nvm.pageBuffer, e.storage.flash.nvm.cells
    ensures r.storage == e.storage && (r == e || (fresh(r) && fresh(r.data)))
    ensures Agrees(r, before + [op]) && Answers(before + [op]) == Answers(before) + answer
  {
    assert (before + [op])[..|before|] == before && [op][0] == op;
    r, answer := e, [];
    match op {
      case Read(address) =>
        var value := e.Read(address);
        answer := [value];
      case Write(address, value) => e.Update(address, value);
      case Commit => e.Commit(beyond);
      case Restart => r := new EepromClass(e.storage);
    }
  }

  /** The emulation after a run of operations, starting from a flash that was never
      committed to: it answers what the plain persistent array answers. */
  method Run(first: EepromClass, ops: seq<Op>, beyond: seq<cell>) returns (e: EepromClass, answers: seq<cell>)
    requires first.Valid() && !first.initialized && first.SavedFlag() == 0
    requires InRange(ops) && |beyond| == 3
    modifies first, first.data
    modifies first.storage.flash.nvm, first.storage.flash.nvm.pageBuffer, first.storage.flash.nvm.cells
    ensures e.storage == first.storage && Agrees(e, ops) && answers == Answers(ops)
  {
    e, answers := first, [];
    for i := 0 to |ops|
      invariant e == first || (fresh(e) && fresh(e.data))
      invariant e.storage == first.storage && Agrees(e, ops[..i]) && answers == Answers(ops[..i])
    {
      assert ops[..i] + [ops[i]] == ops[..i + 1];
      var answer;
      e, answer := Perform(e, ops[i], beyond, ops[..i]);
      answers := answers + answer;
    }
    assert ops[..|ops|] == ops;
  }
}
