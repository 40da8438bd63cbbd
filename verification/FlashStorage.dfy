/**
 Records in flash: `FlashClass` erases rows and programs pages by hand, and
 `FlashStorageClass` keeps one record in a reservation of whole rows.
 */
module FlashStorage {
  import opened Nvm

  /** The words that a size in octets rounds up to. */
  function Words(size: nat): (n: nat)
    ensures size <= 4 * n < size + 4
  {
    (size + 3) / 4
  }

  /** The reservation of the `Flash` and `FlashStorage` macros. */
  function Reserved(size: nat): (n: nat)
    ensures 4 * Words(size) <= n < size + 256 && n % ROW_SIZE == 0
  {
    var rows := (size + 255) / 256;
    WordsFitRows(size, Words(size), rows);
    WholeRows(rows);
    rows * 256
  }

  lemma WholeRows(rows: nat)
    ensures rows * 256 % ROW_SIZE == 0
  {
  }

  lemma WordsFitRows(size: nat, words: nat, rows: nat)
    requires 4 * words < size + 4 && size <= 256 * rows
    ensures 4 * words <= 256 * rows
  {
    assert 4 * words < 4 * (64 * rows + 1);
  }

  /** What `erase` covers: whole rows, and one even for nothing. */
  function Erased(size: nat): nat {
    if size <= ROW_SIZE then ROW_SIZE else ROW_SIZE + Erased(size - ROW_SIZE)
  }

  /** An erase covers exactly the reservation, unless that is empty. */
  lemma {:induction false} ErasedIsReserved(size: nat)
    ensures Erased(size) == Reserved(size) <==> 0 < size
    ensures Erased(size) % ROW_SIZE == 0 && Erased(0) == ROW_SIZE
  {
    if size > ROW_SIZE {
      ErasedIsReserved(size - ROW_SIZE);
    }
  }

  lemma ProgrammedNothing(m: seq<cell>, at: nat)
    ensures Programmed(m, at, []) == m
  {
  }

  lemma SliceNext(data: seq<cell>, done: nat, left: nat, more: nat)
    requires done + left <= |data| && more <= left
    ensures data[..done] + data[done..done + left][..more] == data[..done + more]
  {
  }

  lemma LoadedNext(data: seq<cell>, loaded: nat)
    requires loaded < 16 && 4 * loaded + 4 <= |data|
    ensures Loaded(data[..4 * loaded] + Blank(PAGE_SIZE - 4 * loaded), 4 * loaded, data[4 * loaded..4 * loaded + 4]) ==
      data[..4 * loaded + 4] + Blank(PAGE_SIZE - 4 * loaded - 4)
  {
  }

  lemma RecordAt(before: seq<cell>, record: seq<cell>, beyond: seq<cell>, n: nat, after: seq<cell>)
    requires |record| <= n <= |record| + |beyond|
    ensures (before + (record + beyond)[..n] + after)[|before|..|before| + |record|] == record
  {
  }

  class Flash {
    const nvm: Controller

    constructor (nvm: Controller)
      ensures this.nvm == nvm
    {
      this.nvm := nvm;
    }

    method Erase(at: nat, size: nat)
      requires nvm.Valid() && at % ROW_SIZE == 0 && at + Erased(size) <= nvm.cells.Length
      modifies nvm.cells
      ensures nvm.cells[..] == ErasedFrom(old(nvm.cells[..]), at, Erased(size))
    {
      var ptr: nat, left: nat := at, size;
      while left > ROW_SIZE
        invariant at <= ptr && ptr % ROW_SIZE == 0 && ptr + Erased(left) == at + Erased(size)
        invariant nvm.cells[..] == ErasedFrom(old(nvm.cells[..]), at, ptr - at)
      {
        nvm.EraseRow(ptr);
        ErasedTwice(old(nvm.cells[..]), at, ptr - at, ROW_SIZE);
        ptr, left := ptr + ROW_SIZE, left - ROW_SIZE;
      }
      nvm.EraseRow(ptr);
      ErasedTwice(old(nvm.cells[..]), at, ptr - at, ROW_SIZE);
    }

    /** Clears the page buffer and loads up to a page of words. */
    method FillPage(at: nat, data: seq<cell>) returns (loaded: nat)
      requires nvm.Valid() && at % PAGE_SIZE == 0 && data != [] && |data| % 4 == 0
      requires at + |data| <= nvm.cells.Length
      modifies nvm`address, nvm.pageBuffer
      ensures loaded == if |data| < PAGE_SIZE then |data| / 4 else 16
      ensures 0 < 4 * loaded <= |data| && PageOf(nvm.address) == at && nvm.address < nvm.cells.Length
      ensures nvm.pageBuffer[..] == data[..4 * loaded] + Blank(PAGE_SIZE - 4 * loaded)
    {
      hide PageOf, Loaded, Blank;
      nvm.PageBufferClear();
      loaded := 0;
      assert nvm.pageBuffer[..] == data[..0] + Blank(PAGE_SIZE);
      while loaded < 16 && 4 * loaded < |data|
        invariant loaded <= 16 && 4 * loaded <= |data|
        invariant loaded > 0 ==> PageOf(nvm.address) == at && nvm.address < nvm.cells.Length
        invariant nvm.pageBuffer[..] == data[..4 * loaded] + Blank(PAGE_SIZE - 4 * loaded)
      {
        WordInPage(at, 4 * loaded);
        nvm.LoadWord(at + 4 * loaded, data[4 * loaded..4 * loaded + 4]);
        LoadedNext(data, loaded);
        loaded := loaded + 1;
      }
    }

    /** One page of `Write`. */
    method WriteOnePage(at: nat, data: seq<cell>) returns (loaded: nat)
      requires nvm.Valid() && at % PAGE_SIZE == 0 && data != [] && |data| % 4 == 0
      requires at + |data| <= nvm.cells.Length
      modifies nvm`address, nvm.pageBuffer, nvm.cells
      ensures loaded == if |data| < PAGE_SIZE then |data| / 4 else 16
      ensures nvm.cells[..] == Programmed(old(nvm.cells[..]), at, data[..4 * loaded])
    {
      loaded := FillPage(at, data);
      nvm.WritePage();
      ProgrammedBlank(old(nvm.cells[..]), at, data[..4 * loaded], PAGE_SIZE - 4 * loaded);
    }

    /** Programs `data` word by word from `at` on: cells can only lose bits. */
    method Write(at: nat, data: seq<cell>, size: nat)
      requires nvm.Valid() && at % PAGE_SIZE == 0
      requires 4 * Words(size) <= |data| && at + 4 * Words(size) <= nvm.cells.Length
      modifies nvm, nvm.pageBuffer, nvm.cells
      ensures nvm.Valid() && nvm.manualWrite
      ensures nvm.cells[..] == Programmed(old(nvm.cells[..]), at, data[..4 * Words(size)])
    {
      hide Programmed;
      nvm.manualWrite := true;
      ProgrammedNothing(nvm.cells[..], at);
      assert data[..0] == [];
      var left, done := Words(size), 0;
      while left != 0
        invariant nvm.Valid() && nvm.manualWrite
        invariant done + left == Words(size) && (left != 0 ==> done % 16 == 0)
        invariant nvm.cells[..] == Programmed(old(nvm.cells[..]), at, data[..4 * done])
      {
        var rest := data[4 * done..4 * done + 4 * left];
        var loaded := WriteOnePage(at + 4 * done, rest);
        ProgrammedTwice(old(nvm.cells[..]), at, data[..4 * done], rest[..4 * loaded]);
        SliceNext(data, 4 * done, 4 * left, 4 * loaded);
        left, done := left - loaded, done + loaded;
      }
    }

    method Read(at: nat, size: nat) returns (data: seq<cell>)
      requires at + size <= nvm.cells.Length
      ensures data == nvm.cells[at..at + size]
    {
      data := nvm.cells[at..at + size];
    }
  }

  /** One record of `size` octets at a row boundary. */
  class Storage {
    const flash: Flash
    const base: nat
    const size: nat

    ghost predicate Valid()
      reads flash.nvm
    {
      && flash.nvm.Valid() && base % ROW_SIZE == 0
      && 0 < size && base + Reserved(size) <= flash.nvm.cells.Length
    }

    constructor (flash: Flash, base: nat, size: nat)
      ensures this.flash == flash && this.base == base && this.size == size
    {
      this.flash, this.base, this.size := flash, base, size;
    }

    /** Stores a record. `beyond` is what memory holds after the record: the last word
        is filled up from it. The rest of the reservation is blank and no cell outside
        the reservation changes. */
    method Write(record: seq<cell>, beyond: seq<cell>)
      requires Valid() && |record| == size && size + |beyond| >= 4 * Words(size)
      modifies flash.nvm, flash.nvm.pageBuffer, flash.nvm.cells
      ensures Valid()
      ensures flash.nvm.cells[..] ==
        old(flash.nvm.cells[..base]) + (record + beyond)[..4 * Words(size)] +
        (Blank(Reserved(size) - 4 * Words(size)) + old(flash.nvm.cells[base + Reserved(size)..]))
      ensures flash.nvm.cells[base..base + size] == record
    {
      hide Programmed, ErasedFrom, Erased, Words, Reserved, Blank;
      ErasedIsReserved(size);
      flash.Erase(base, size);
      flash.Write(base, record + beyond, size);
      ProgrammedErased(old(flash.nvm.cells[..]), base, Reserved(size), (record + beyond)[..4 * Words(size)]);
      RecordAt(old(flash.nvm.cells[..base]), record, beyond, 4 * Words(size),
        Blank(Reserved(size) - 4 * Words(size)) + old(flash.nvm.cells[base + Reserved(size)..]));
    }

    method Read() returns (record: seq<cell>)
      requires Valid()
      ensures record == flash.nvm.cells[base..base + size]
    {
      record := flash.Read(base, size);
    }
  }

  /** Whatever the flash held before, a record written is a record read. */
  method WriteThenRead(storage: Storage, record: seq<cell>, beyond: seq<cell>) returns (back: seq<cell>)
    requires storage.Valid() && |record| == storage.size
    requires storage.size + |beyond| >= 4 * Words(storage.size)
    modifies storage.flash.nvm, storage.flash.nvm.pageBuffer, storage.flash.nvm.cells
    ensures back == record
  {
    storage.Write(record, beyond);
    back := storage.Read();
  }
}
