/**
 Over-the-air update: a sketch image is staged, word by word with automatic page
 writes, in the upper half of flash, padded to a page, and then copied over the
 running sketch in the lower half.
 */
module Ota {
  import opened Nvm

  const MAX_FLASH := 0x40000
  const SKETCH_START := 0x2000
  const PARTITION := 0x1F000
  const STORAGE_START := 0x21000

  /** `data` is being written from `base` on over `ground`: `pages` pages are
      programmed and `words` words of the next one stand in the page buffer. */
  ghost predicate Streaming(nvm: Controller, ground: seq<cell>, base: nat, data: seq<cell>, pages: nat, words: nat)
    reads nvm, nvm.cells, nvm.pageBuffer
  {
    && nvm.Valid() && !nvm.manualWrite
    && base % PAGE_SIZE == 0 && words < 16 && PAGE_SIZE * pages + 4 * words <= |data|
    && |ground| == nvm.cells.Length && base + PAGE_SIZE * pages <= |ground|
    && nvm.cells[..] == Programmed(ground, base, data[..PAGE_SIZE * pages])
    && nvm.pageBuffer[..] ==
         data[PAGE_SIZE * pages..PAGE_SIZE * pages + 4 * words] + Blank(PAGE_SIZE - 4 * words)
  }

  lemma StreamStart(nvm: Controller, base: nat, data: seq<cell>)
    requires nvm.Valid() && !nvm.manualWrite && nvm.BufferClear()
    requires base % PAGE_SIZE == 0 && base <= nvm.cells.Length
    ensures Streaming(nvm, nvm.cells[..], base, data, 0, 0)
  {
  }

  /** The buffer with one word more. */
  lemma WordLoaded(data: seq<cell>, at: nat, words: nat)
    requires words < 16 && at + 4 * words + 4 <= |data|
    ensures Loaded(data[at..at + 4 * words] + Blank(PAGE_SIZE - 4 * words), 4 * words,
                   data[at + 4 * words..at + 4 * words + 4]) ==
      data[at..at + 4 * words + 4] + Blank(PAGE_SIZE - 4 * words - 4)
  {
  }

  lemma PageDone(ground: seq<cell>, base: nat, data: seq<cell>, at: nat)
    requires at + PAGE_SIZE <= |data|
    ensures Programmed(Programmed(ground, base, data[..at]), base + at, data[at..at + PAGE_SIZE]) ==
      Programmed(ground, base, data[..at + PAGE_SIZE])
  {
    ProgrammedTwice(ground, base, data[..at], data[at..at + PAGE_SIZE]);
    assert data[..at] + data[at..at + PAGE_SIZE] == data[..at + PAGE_SIZE];
  }

  lemma Divisible(base: nat, pages: nat)
    requires base % PAGE_SIZE == 0
    ensures (base + PAGE_SIZE * pages) % PAGE_SIZE == 0
  {
  }

  /** One store of a word. */
  method StoreNext(nvm: Controller, at: nat, word: seq<cell>,
                   ghost ground: seq<cell>, ghost base: nat, ghost data: seq<cell>, ghost pages: nat, ghost words: nat)
      returns (ghost newPages: nat, ghost newWords: nat)
    requires Streaming(nvm, ground, base, data, pages, words)
    requires PAGE_SIZE * pages + 4 * words + 4 <= |data| && base + PAGE_SIZE * (pages + 1) <= |ground|
    requires at == base + PAGE_SIZE * pages + 4 * words
    requires word == data[PAGE_SIZE * pages + 4 * words..PAGE_SIZE * pages + 4 * words + 4]
    modifies nvm`address, nvm.pageBuffer, nvm.cells
    ensures PAGE_SIZE * newPages + 4 * newWords == PAGE_SIZE * pages + 4 * words + 4
    ensures Streaming(nvm, ground, base, data, newPages, newWords)
  {
    hide Programmed, Loaded, Blank, PageOf;
    Divisible(base, pages);
    WordInPage(base + PAGE_SIZE * pages, 4 * words);
    WordLoaded(data, PAGE_SIZE * pages, words);
    nvm.StoreWord(at, word);
    if words == 15 {
      PageDone(ground, base, data, PAGE_SIZE * pages);
      newPages, newWords := pages + 1, 0;
      NoBlank(data, PAGE_SIZE * pages, PAGE_SIZE * newPages);
    } else {
      newPages, newWords := pages, words + 1;
    }
  }

  lemma NoBlank(data: seq<cell>, from: nat, to: nat)
    requires from <= to <= |data|
    ensures data[from..to] + Blank(0) == data[from..to]
    ensures data[to..to + 0] + Blank(PAGE_SIZE) == Blank(PAGE_SIZE)
  {
  }

  /** Erases the rows of a region. */
  method EraseFlash(nvm: Controller, address: nat, length: nat)
    requires nvm.Valid() && address % ROW_SIZE == 0 && length % ROW_SIZE == 0
    requires address + length <= nvm.cells.Length
    modifies nvm.cells
    ensures nvm.cells[..] == ErasedFrom(old(nvm.cells[..]), address, length)
  {
    hide ErasedFrom, RowOf;
    var i: nat := 0;
    ErasedNone(nvm.cells[..], address);
    while i < length
      invariant i <= length && i % ROW_SIZE == 0
      invariant nvm.cells[..] == ErasedFrom(old(nvm.cells[..]), address, i)
    {
      RowStart(address + i);
      nvm.EraseRow(address + i);
      ErasedTwice(old(nvm.cells[..]), address, i, ROW_SIZE);
      i := i + ROW_SIZE;
    }
  }

  lemma ErasedNone(m: seq<cell>, at: nat)
    ensures ErasedFrom(m, at, 0) == m
  {
  }

  lemma RowStart(at: nat)
    requires at % ROW_SIZE == 0
    ensures RowOf(at) == at
  {
  }

  lemma StreamExtends(nvm: Controller, ground: seq<cell>, base: nat, data: seq<cell>, pages: nat, words: nat, b: cell)
    requires Streaming(nvm, ground, base, data, pages, words)
    ensures Streaming(nvm, ground, base, data + [b], pages, words)
  {
  }

  lemma StreamFacts(nvm: Controller, ground: seq<cell>, base: nat, data: seq<cell>, pages: nat, words: nat)
    requires Streaming(nvm, ground, base, data, pages, words)
    ensures words < 16 && |ground| == nvm.cells.Length
  {
  }

  lemma OctetTaken(data: seq<cell>, at: nat, b: cell)
    requires at <= |data|
    ensures (data + [b])[at..] == data[at..] + [b]
  {
  }

  class InternalStorage {
    const nvm: Controller
    const addressData: array<cell>
    var writeIndex: nat
    var writeAddress: nat
    ghost var image: seq<cell>
    ghost var ground: seq<cell>
    ghost var pages: nat
    ghost var words: nat

    constructor (nvm: Controller)
      requires nvm.Valid() && nvm.cells.Length == MAX_FLASH
      ensures this.nvm == nvm && fresh(addressData) && Separate()
    {
      this.nvm := nvm;
      addressData := new cell[4];
      writeIndex, writeAddress := 0, 0;
      image, ground, pages, words := [], [], 0, 0;
    }

    ghost predicate Separate()
      reads this
    {
      && nvm.cells.Length == MAX_FLASH && addressData.Length == 4
      && addressData != nvm.cells && addressData != nvm.pageBuffer && nvm as object != this
    }

    /** The octets of `image` have been taken: full words are in flash or in the page
        buffer, the rest of the last word is in `addressData`. */
    ghost predicate Valid()
      reads this, addressData, nvm, nvm.cells, nvm.pageBuffer
    {
      && Separate() && writeIndex < 4
      && |image| == PAGE_SIZE * pages + 4 * words + writeIndex
      && PAGE_SIZE * pages <= PARTITION && (words > 0 || writeIndex > 0 ==> PAGE_SIZE * pages < PARTITION)
      && writeAddress == STORAGE_START + PAGE_SIZE * pages + 4 * words
      && addressData[..writeIndex] == image[PAGE_SIZE * pages + 4 * words..]
      && Streaming(nvm, ground, STORAGE_START, image, pages, words)
    }

    method Open()
      requires Separate() && nvm.Valid() && nvm.BufferClear()
      modifies this, nvm`manualWrite, nvm.cells
      ensures Valid() && image == []
      ensures ground == ErasedFrom(old(nvm.cells[..]), STORAGE_START, PARTITION)
    {
      hide ErasedFrom;
      writeIndex, writeAddress := 0, STORAGE_START;
      nvm.manualWrite := false;
      EraseFlash(nvm, STORAGE_START, PARTITION);
      image, ground, pages, words := [], nvm.cells[..], 0, 0;
      StreamStart(nvm, STORAGE_START, image);
      assert addressData[..0] == image;
    }

    /** A word is complete in `addressData` and not yet stored. */
    ghost predicate Filled()
      reads this, addressData, nvm, nvm.cells, nvm.pageBuffer
    {
      && Separate() && writeIndex == 0
      && |image| == PAGE_SIZE * pages + 4 * words + 4
      && PAGE_SIZE * pages < PARTITION
      && writeAddress == STORAGE_START + PAGE_SIZE * pages + 4 * words
      && addressData[..] == image[PAGE_SIZE * pages + 4 * words..]
      && Streaming(nvm, ground, STORAGE_START, image, pages, words)
    }

    method StoreFilled()
      requires Filled() && |image| <= PARTITION
      modifies this`writeAddress, this`pages, this`words, nvm`address, nvm.pageBuffer, nvm.cells
      ensures Valid()
    {
      hide Streaming, Programmed;
      StreamFacts(nvm, ground, STORAGE_START, image, pages, words);
      pages, words := StoreNext(nvm, writeAddress, addressData[..], ground, STORAGE_START, image, pages, words);
      writeAddress := writeAddress + 4;
      StreamFacts(nvm, ground, STORAGE_START, image, pages, words);
    }

    /** Takes an octet into `addressData`, and says whether that completes a word. */
    method Hold(b: cell) returns (full: bool)
      requires Valid() && |image| < PARTITION
      modifies this`writeIndex, this`image, addressData
      ensures image == old(image) + [b] && if full then Filled() else Valid()
    {
      hide Streaming, Programmed, Blank;
      StreamExtends(nvm, ground, STORAGE_START, image, pages, words, b);
      ghost var held, at := addressData[..writeIndex], PAGE_SIZE * pages + 4 * words;
      addressData[writeIndex] := b;
      OctetTaken(image, at, b);
      image := image + [b];
      writeIndex := writeIndex + 1;
      assert addressData[..writeIndex] == held + [b];
      full := writeIndex == 4;
      if full {
        writeIndex := 0;
        assert addressData[..] == addressData[..4];
      }
    }

    method Write(b: cell)
      requires Valid() && |image| < PARTITION
      modifies this`writeIndex, this`writeAddress, this`image, this`pages, this`words
      modifies addressData, nvm`address, nvm.pageBuffer, nvm.cells
      ensures Valid() && image == old(image) + [b] && ground == old(ground)
    {
      hide Streaming, Programmed, Blank;
      var full := Hold(b);
      if full {
        StoreFilled();
      }
    }

    /** Fills up to a page boundary. A word begun right at a boundary stays behind. */
    method Close() returns (ghost padding: nat)
      requires Valid()
      modifies this`writeIndex, this`writeAddress, this`image, this`pages, this`words
      modifies addressData, nvm`address, nvm.pageBuffer, nvm.cells
      ensures Valid() && words == 0 && ground == old(ground)
      ensures image == old(image) + Blank(padding)
      ensures if old(words) == 0 then padding == 0 else writeIndex == 0
    {
      hide Streaming, Blank;
      padding := 0;
      BlankGrows(image, 0);
      while writeAddress % PAGE_SIZE != 0
        invariant Valid() && ground == old(ground) && image == old(image) + Blank(padding)
        invariant if old(words) == 0 then words == 0 && padding == 0 else words > 0 || writeIndex == 0
        decreases PARTITION - |image|
      {
        StreamFacts(nvm, ground, STORAGE_START, image, pages, words);
        BoundaryReached(pages, words);
        BlankGrows(old(image), padding);
        ghost var p, w, x := pages, words, writeIndex;
        Write(0xFF);
        StreamFacts(nvm, ground, STORAGE_START, image, pages, words);
        PageEntered(p, w, x, pages, words, writeIndex);
        padding := padding + 1;
      }
      StreamFacts(nvm, ground, STORAGE_START, image, pages, words);
      BoundaryReached(pages, words);
    }
  }

  lemma BlankGrows(data: seq<cell>, n: nat)
    ensures data + Blank(n) + [0xFF] == data + Blank(n + 1)
    ensures data + Blank(0) == data
  {
  }

  /** One octet more, counted in pages, words and octets. */
  lemma PageEntered(p: nat, w: nat, x: nat, p': nat, w': nat, x': nat)
    requires PAGE_SIZE * p' + 4 * w' + x' == PAGE_SIZE * p + 4 * w + x + 1
    requires 0 < w < 16 && w' < 16 && x < 4 && x' < 4
    ensures w' == 0 ==> x' == 0
  {
  }

  lemma BoundaryReached(pages: nat, words: nat)
    requires words < 16
    ensures (STORAGE_START + PAGE_SIZE * pages + 4 * words) % PAGE_SIZE == 0 <==> words == 0
  {
  }

  // ---------- copying over the sketch ----------

  /** A region of memory replaced. */
  function Replaced(m: seq<cell>, at: nat, data: seq<cell>): seq<cell>
    requires at + |data| <= |m|
  {
    m[..at] + data + m[at + |data|..]
  }

  /** What is written below the source does not disturb the source. */
  lemma SourceIntact(m: seq<cell>, dest: nat, src: nat, length: nat, data: seq<cell>, i: nat)
    requires dest + length <= src && src + length <= |m| && |data| <= length && i + 4 <= length
    ensures var now := Programmed(ErasedFrom(m, dest, length), dest, data);
      now[src + i..src + i + 4] == m[src..src + length][i..i + 4]
  {
  }

  lemma WholePages(pages: nat, words: nat, length: nat)
    requires PAGE_SIZE * pages + 4 * words == length && length % PAGE_SIZE == 0 && words < 16
    ensures words == 0
  {
  }

  lemma StreamEnds(nvm: Controller, m: seq<cell>, base: nat, length: nat, data: seq<cell>, pages: nat)
    requires Streaming(nvm, ErasedFrom(m, base, length), base, data, pages, 0)
    requires PAGE_SIZE * pages <= length && base + length <= |m|
    ensures nvm.BufferClear()
    ensures nvm.cells[..] ==
      Replaced(m, base, data[..PAGE_SIZE * pages] + Blank(length - PAGE_SIZE * pages))
  {
  }

  /** Erases the destination and copies the source there word by word. */
  method CopyFlash(nvm: Controller, dest: nat, src: nat, length: nat)
    requires nvm.Valid() && !nvm.manualWrite && nvm.BufferClear()
    requires dest % ROW_SIZE == 0 && length % ROW_SIZE == 0 && src % 4 == 0
    requires dest + length <= src && src + length <= nvm.cells.Length
    modifies nvm`address, nvm.pageBuffer, nvm.cells
    ensures nvm.cells[..] == Replaced(old(nvm.cells[..]), dest, old(nvm.cells[src..src + length]))
  {
    hide Streaming, Programmed, ErasedFrom, Blank, Replaced;
    ghost var m, data := nvm.cells[..], nvm.cells[src..src + length];
    ghost var pages, words := 0, 0;
    EraseFlash(nvm, dest, length);
    ghost var ground := nvm.cells[..];
    RowsArePages(dest);
    RowsArePages(length);
    StreamStart(nvm, dest, data);
    var i := 0;
    while i < length
      invariant i <= length && i == PAGE_SIZE * pages + 4 * words && i % 4 == 0
      invariant Streaming(nvm, ground, dest, data, pages, words)
    {
      StreamFacts(nvm, ground, dest, data, pages, words);
      StreamSource(nvm, m, dest, src, length, data, pages, words, i);
      pages, words := StoreNext(nvm, dest + i, nvm.cells[src + i..src + i + 4], ground, dest, data, pages, words);
      i := i + 4;
    }
    StreamFacts(nvm, ground, dest, data, pages, words);
    WholePages(pages, words, length);
    StreamEnds(nvm, m, dest, length, data, pages);
    assert data[..PAGE_SIZE * pages] == data;
    BlankGrows(data, 0);
  }

  lemma RowsArePages(n: nat)
    requires n % ROW_SIZE == 0
    ensures n % PAGE_SIZE == 0 && n % 4 == 0
  {
    var rows := n / ROW_SIZE;
    assert n == ROW_SIZE * rows;
    Multiples(4 * rows);
    Multiples(64 * rows);
  }

  lemma Multiples(k: nat)
    ensures PAGE_SIZE * k % PAGE_SIZE == 0 && 4 * k % 4 == 0
  {
  }

  lemma StreamSource(nvm: Controller, m: seq<cell>, dest: nat, src: nat, length: nat, data: seq<cell>,
                     pages: nat, words: nat, i: nat)
    requires Streaming(nvm, ErasedFrom(m, dest, length), dest, data, pages, words)
    requires dest + length <= src && src + length <= |m| == nvm.cells.Length && data == m[src..src + length]
    requires i == PAGE_SIZE * pages + 4 * words && i < length && length % 64 == 0 && i % 4 == 0
    ensures i + 4 <= length && PAGE_SIZE * (pages + 1) <= length
    ensures nvm.cells[src + i..src + i + 4] == data[i..i + 4]
  {
    SourceIntact(m, dest, src, length, data[..PAGE_SIZE * pages], i);
  }

  // ---------- the whole update ----------

  /** How many octets of an image of `n` octets survive staging: a begun word right
      after a page boundary is never written. */
  function KeptLength(n: nat): nat {
    if n % PAGE_SIZE < 4 then n - n % PAGE_SIZE else n
  }

  /** The sketch region after an update. */
  function Installed(image: seq<cell>): (r: seq<cell>)
    requires |image| <= PARTITION
    ensures |r| == PARTITION
  {
    image[..KeptLength(|image|)] + Blank(PARTITION - KeptLength(|image|))
  }

  /** The image and nothing but blank cells behind it, if and only if its last, begun
      page holds no octets, at least a word, or octets that are blank anyway. */
  lemma InstalledFaithful(image: seq<cell>)
    requires |image| <= PARTITION
    ensures Installed(image) == image + Blank(PARTITION - |image|) <==>
      |image| % PAGE_SIZE == 0 || |image| % PAGE_SIZE >= 4 ||
      (forall i :: |image| - |image| % PAGE_SIZE <= i < |image| ==> image[i] == 0xFF)
  {
    var k, whole := KeptLength(|image|), image + Blank(PARTITION - |image|);
    if k < |image| && Installed(image) == whole {
      forall i | k <= i < |image|
        ensures image[i] == 0xFF
      {
        assert Installed(image)[i] == whole[i];
      }
    }
  }

  /** Whatever the image, all of it up to its last begun page is installed, and cells behind
      it are blank. */
  lemma InstalledFront(image: seq<cell>)
    requires |image| <= PARTITION
    ensures Installed(image)[..|image| - |image| % PAGE_SIZE] == image[..|image| - |image| % PAGE_SIZE]
    ensures forall i :: |image| <= i < PARTITION ==> Installed(image)[i] == 0xFF
  {
  }

  /** In particular every image of whole words is installed as it is. */
  lemma WholeWordsInstalled(image: seq<cell>)
    requires |image| <= PARTITION && |image| % 4 == 0
    ensures Installed(image) == image + Blank(PARTITION - |image|)
  {
    hide Installed;
    InstalledFaithful(image);
    var n := |image|;
    assert n == PAGE_SIZE * (n / PAGE_SIZE) + n % PAGE_SIZE && n == 4 * (n / 4);
    assert n % PAGE_SIZE == 4 * (n / 4 - 16 * (n / PAGE_SIZE));
  }

  /** `close` leaves the installed form of the image in the staging region. */
  lemma StagedIsInstalled(storage: InternalStorage, m: seq<cell>, image: seq<cell>, padding: nat, begun: bool)
    requires storage.Valid() && storage.words == 0 && |image| <= PARTITION && |m| == MAX_FLASH
    requires storage.ground == ErasedFrom(m, STORAGE_START, PARTITION)
    requires storage.image == image + Blank(padding)
    requires begun <==> |image| % PAGE_SIZE >= 4
    requires if begun then storage.writeIndex == 0 else padding == 0
    ensures storage.nvm.Valid() && !storage.nvm.manualWrite && storage.nvm.BufferClear()
    ensures storage.nvm.cells[..] == Replaced(m, STORAGE_START, Installed(image))
  {
  }

  lemma BegunWord(storage: InternalStorage, image: seq<cell>)
    requires storage.Valid() && storage.image == image
    ensures storage.words > 0 <==> |image| % PAGE_SIZE >= 4
  {
  }

  /** `apply`. */
  method CopyPartition(nvm: Controller, ghost m: seq<cell>, ghost data: seq<cell>)
    requires nvm.Valid() && !nvm.manualWrite && nvm.BufferClear() && nvm.cells.Length == |m| == MAX_FLASH
    requires |data| == PARTITION && nvm.cells[..] == Replaced(m, STORAGE_START, data)
    modifies nvm`address, nvm.pageBuffer, nvm.cells
    ensures nvm.cells[..] == Replaced(Replaced(m, STORAGE_START, data), SKETCH_START, data)
  {
    CopyFlash(nvm, SKETCH_START, STORAGE_START, PARTITION);
  }

  /** Stages an image octet by octet and applies it: the sketch region holds its
      installed form, and so does the staging region, untouched by the copying. */
  method Update(storage: InternalStorage, image: seq<cell>)
    requires storage.Separate() && storage.nvm.Valid() && storage.nvm.BufferClear()
    requires |image| <= PARTITION
    modifies storage, storage.addressData, storage.nvm, storage.nvm.pageBuffer, storage.nvm.cells
    ensures storage.nvm.cells[..] == Replaced(
      Replaced(old(storage.nvm.cells[..]), STORAGE_START, Installed(image)), SKETCH_START, Installed(image))
  {
    hide Streaming, Programmed, ErasedFrom, Blank, Installed, KeptLength;
    ghost var m := storage.nvm.cells[..];
    storage.Open();
    for i := 0 to |image|
      invariant storage.Valid() && storage.image == image[..i]
      invariant storage.ground == ErasedFrom(m, STORAGE_START, PARTITION)
    {
      storage.Write(image[i]);
    }
    assert image[..|image|] == image;
    BegunWord(storage, image);
    ghost var begun := storage.words > 0;
    ghost var padding := storage.Close();
    StagedIsInstalled(storage, m, image, padding, begun);
    CopyPartition(storage.nvm, m, Installed(image));
  }
}
