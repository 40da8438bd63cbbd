/**
 Flash memory behind its controller: cells that an erase sets to 0xFF a row at a
 time and that programming can only clear, and a page buffer that words are loaded
 into. Pages have 64 cells and rows 256.
 */
module Nvm {
  type cell = bv8

  const PAGE_SIZE := 64
  const ROW_SIZE := 256

  function Blank(n: nat): (s: seq<cell>)
    ensures |s| == n && forall k :: 0 <= k < n ==> s[k] == 0xFF
  {
    seq(n, _ => 0xFF)
  }

  function PageOf(at: nat): nat {
    at - at % PAGE_SIZE
  }

  function RowOf(at: nat): nat {
    at - at % ROW_SIZE
  }

  /** Memory after `n` cells from `at` on were erased. */
  function ErasedFrom(m: seq<cell>, at: nat, n: nat): (r: seq<cell>)
    ensures |r| == |m|
    ensures forall i :: 0 <= i < |m| ==> r[i] == if at <= i < at + n then 0xFF else m[i]
  {
    seq(|m|, i requires 0 <= i < |m| => if at <= i < at + n then 0xFF else m[i])
  }

  /** Memory after `data` was programmed from `at` on: cells can only lose bits. */
  function Programmed(m: seq<cell>, at: nat, data: seq<cell>): (r: seq<cell>)
    ensures |r| == |m|
    ensures forall i :: 0 <= i < |m| ==> r[i] == if at <= i < at + |data| then m[i] & data[i - at] else m[i]
  {
    seq(|m|, i requires 0 <= i < |m| => if at <= i < at + |data| then m[i] & data[i - at] else m[i])
  }

  lemma ErasedTwice(m: seq<cell>, at: nat, a: nat, b: nat)
    ensures ErasedFrom(ErasedFrom(m, at, a), at + a, b) == ErasedFrom(m, at, a + b)
  {
  }

  lemma ProgrammedTwice(m: seq<cell>, at: nat, a: seq<cell>, b: seq<cell>)
    ensures Programmed(Programmed(m, at, a), at + |a|, b) == Programmed(m, at, a + b)
  {
    var once, whole := Programmed(m, at, a), Programmed(m, at, a + b);
    var twice := Programmed(once, at + |a|, b);
    forall i | 0 <= i < |m|
      ensures twice[i] == whole[i]
    {
      if at + |a| <= i < at + |a| + |b| {
        assert (a + b)[i - at] == b[i - at - |a|] && once[i] == m[i];
      } else if at <= i < at + |a| {
        assert (a + b)[i - at] == a[i - at];
      }
    }
  }

  lemma ProgrammedFirst(m: seq<cell>, at: nat, data: seq<cell>)
    ensures Programmed(m, at, data[..0]) == m
  {
  }

  /** Programming one cell more. */
  lemma ProgrammedNext(m: seq<cell>, at: nat, data: seq<cell>, k: nat)
    requires k < |data| && at + k < |m|
    ensures var before := Programmed(m, at, data[..k]);
      Programmed(m, at, data[..k + 1]) == before[at + k := before[at + k] & data[k]]
  {
  }

  /** The page of an address lies in the memory. */
  lemma InPage(address: nat, size: nat)
    requires address < size && size % ROW_SIZE == 0
    ensures PageOf(address) + PAGE_SIZE <= size
  {
  }

  lemma Remainder(size: nat, count: nat, rest: nat)
    requires (size == 4 || size == PAGE_SIZE) && rest < size
    ensures (size * count + rest) % size == rest
  {
  }

  /** A word at offset `k` of a page. */
  lemma WordInPage(at: nat, k: nat)
    requires at % PAGE_SIZE == 0 && k < PAGE_SIZE
    ensures (at + k) % PAGE_SIZE == k && PageOf(at + k) == at && (k % 4 == 0 ==> (at + k) % 4 == 0)
  {
    var pages := at / PAGE_SIZE;
    Remainder(PAGE_SIZE, pages, k);
    if k % 4 == 0 {
      Remainder(4, 16 * pages + k / 4, 0);
    }
  }

  /** Blank data programs nothing. */
  lemma ProgrammedBlank(m: seq<cell>, at: nat, data: seq<cell>, n: nat)
    ensures Programmed(m, at, data + Blank(n)) == Programmed(m, at, data)
  {
  }

  /** Erased cells take exactly what is programmed. */
  lemma ProgrammedErased(m: seq<cell>, at: nat, n: nat, data: seq<cell>)
    requires |data| <= n && at + n <= |m|
    ensures Programmed(ErasedFrom(m, at, n), at, data) ==
      m[..at] + data + (Blank(n - |data|) + m[at + n..])
  {
  }

  /** The page buffer with a word in it. */
  function Loaded(buffer: seq<cell>, slot: nat, word: seq<cell>): (b: seq<cell>)
    requires slot + |word| <= |buffer|
    ensures |b| == |buffer|
  {
    buffer[..slot] + word + buffer[slot + |word|..]
  }

  class Controller {
    const cells: array<cell>
    const pageBuffer: array<cell>
    var address: nat
    var manualWrite: bool

    ghost predicate Valid()
      reads this
    {
      cells != pageBuffer && pageBuffer.Length == PAGE_SIZE && cells.Length % ROW_SIZE == 0
    }

    ghost predicate BufferClear()
      reads pageBuffer
    {
      pageBuffer[..] == Blank(pageBuffer.Length)
    }

    constructor (size: nat)
      requires size % ROW_SIZE == 0
      ensures Valid() && fresh(cells) && fresh(pageBuffer) && cells.Length == size && BufferClear()
    {
      cells := new cell[size];
      pageBuffer := new cell[PAGE_SIZE](_ => 0xFF);
      address, manualWrite := 0, false;
    }

    /** Command PBC. */
    method PageBufferClear()
      requires Valid()
      modifies pageBuffer
      ensures BufferClear()
    {
      for k := 0 to PAGE_SIZE
        invariant forall j :: 0 <= j < k ==> pageBuffer[j] == 0xFF
      {
        pageBuffer[k] := 0xFF;
      }
    }

    /** Command WP: the page of the last load takes the buffer. */
    method WritePage()
      requires Valid() && address < cells.Length
      modifies cells
      ensures cells[..] == Programmed(old(cells[..]), PageOf(address), pageBuffer[..])
    {
      hide Programmed, PageOf;
      InPage(address, cells.Length);
      var base := PageOf(address);
      ProgrammedFirst(cells[..], base, pageBuffer[..]);
      for k := 0 to PAGE_SIZE
        invariant cells[..] == Programmed(old(cells[..]), base, pageBuffer[..k])
      {
        ProgrammedNext(old(cells[..]), base, pageBuffer[..], k);
        cells[base + k] := cells[base + k] & pageBuffer[k];
      }
      assert pageBuffer[..PAGE_SIZE] == pageBuffer[..];
    }

    /** Command ER: the row of an address is blank afterwards. */
    method EraseRow(at: nat)
      requires Valid() && at < cells.Length
      modifies cells
      ensures cells[..] == ErasedFrom(old(cells[..]), RowOf(at), ROW_SIZE)
    {
      var base := RowOf(at);
      for k := 0 to ROW_SIZE
        invariant cells[..] == ErasedFrom(old(cells[..]), base, k)
      {
        cells[base + k] := 0xFF;
      }
    }

    /** A store to a flash address: the word goes into the page buffer. */
    method LoadWord(at: nat, word: seq<cell>)
      requires Valid() && at % 4 == 0 && at < cells.Length && |word| == 4
      modifies this`address, pageBuffer
      ensures address == at
      ensures pageBuffer[..] == Loaded(old(pageBuffer[..]), at % PAGE_SIZE, word)
    {
      var slot := at % PAGE_SIZE;
      pageBuffer[slot], pageBuffer[slot + 1] := word[0], word[1];
      pageBuffer[slot + 2], pageBuffer[slot + 3] := word[2], word[3];
      address := at;
    }

    /** The same with automatic page writes: the last word of a page also programs
        the page and leaves the buffer clear. */
    method StoreWord(at: nat, word: seq<cell>)
      requires Valid() && !manualWrite && at % 4 == 0 && at < cells.Length && |word| == 4
      modifies this`address, pageBuffer, cells
      ensures at % PAGE_SIZE != PAGE_SIZE - 4 ==>
        cells[..] == old(cells[..]) && pageBuffer[..] == Loaded(old(pageBuffer[..]), at % PAGE_SIZE, word)
      ensures at % PAGE_SIZE == PAGE_SIZE - 4 ==> BufferClear()
      ensures at % PAGE_SIZE == PAGE_SIZE - 4 ==>
        cells[..] == Programmed(old(cells[..]), PageOf(at), Loaded(old(pageBuffer[..]), PAGE_SIZE - 4, word))
    {
      LoadWord(at, word);
      if at % PAGE_SIZE == PAGE_SIZE - 4 {
        WritePage();
        PageBufferClear();
      }
    }
  }
}
