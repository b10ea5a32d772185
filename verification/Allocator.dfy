/**
 The page allocator of a document: nodes, attributes and strings are cut from pages, a page is released when its last
 block is, and a string remembers in front of itself which page it is in and how long it is.
 */
module Allocator {

  import opened Common

  /** The alignment of a block, the size of a page's own fields, and the bytes that a page has for blocks. */
  const ALIGNMENT: nat := 8
  const PAGE_FIELDS: nat := 40
  const PAGE_SIZE: nat := 32768 - PAGE_FIELDS
  /** Larger requests that do not fit get a page of their own. */
  const LARGE_THRESHOLD: nat := PAGE_SIZE / 4
  const STRING_HEADER: nat := 4
  const UINT16: nat := 0x1_0000
  const MAX_ENCODED_OFFSET: nat := UINT16 * ALIGNMENT

  /** A live block, and whether it is a string with its header. */
  datatype Block = Block(offset: nat, size: nat, text: bool)

  /** The bytes of the blocks. */
  ghost function Bytes(s: seq<Block>): nat {
    if s == [] then 0 else Bytes(s[..|s| - 1]) + s[|s| - 1].size
  }

  /** The blocks lie one after the other, aligned, below the end. */
  ghost predicate Laid(s: seq<Block>, end: nat) {
    && (forall i {:trigger s[i]} :: 0 <= i < |s| ==>
      s[i].size > 0 && s[i].size % ALIGNMENT == 0 && s[i].offset % ALIGNMENT == 0 && s[i].offset + s[i].size <= end)
    && (forall i, j :: 0 <= i < j < |s| ==> s[i].offset + s[i].size <= s[j].offset)
  }

  lemma {:induction false} BytesRemoved(s: seq<Block>, k: nat)
    requires k < |s|
    ensures Bytes(Removed(s, k)) == Bytes(s) - s[k].size
  {
    var last := |s| - 1;
    if k == last {
      assert Removed(s, k) == s[..last];
    } else {
      BytesRemoved(s[..last], k);
      assert Removed(s, k)[..last - 1] == Removed(s[..last], k);
    }
  }

  lemma BytesOfNone(s: seq<Block>)
    requires forall i :: 0 <= i < |s| ==> s[i].size > 0
    ensures Bytes(s) == 0 <==> s == []
  {
  }

  lemma LaidRemoved(s: seq<Block>, end: nat, k: nat)
    requires Laid(s, end) && k < |s|
    ensures Laid(Removed(s, k), end)
  {
    var r := Removed(s, k);
    assert forall i :: 0 <= i < |r| ==> r[i] == s[if i < k then i else i + 1];
  }

  /** Two live blocks of a page share no byte. */
  lemma BlocksAreDisjoint(s: seq<Block>, end: nat, i: nat, j: nat)
    requires Laid(s, end) && i < |s| && j < |s| && i != j
    ensures s[i].offset + s[i].size <= s[j].offset || s[j].offset + s[j].size <= s[i].offset
    ensures s[i] != s[j]
  {
    assert i < j || j < i;
  }

  // What the pages hold

  /** A page's room, how many of its bytes were handed out and how many of those came back, and its live blocks. */
  datatype Sheet = Sheet(capacity: nat, busy: nat, freed: nat, blocks: seq<Block>)

  /** The page inside the document, which counts as full. */
  const SENTINEL := Sheet(0, PAGE_SIZE, 0, [])

  /** Live blocks lie apart below the busy size, and busy minus freed is what they take. */
  ghost predicate Accounts(s: Sheet) {
    && s.freed <= s.busy <= s.capacity && s.busy % ALIGNMENT == 0
    && Laid(s.blocks, s.busy)
    && s.busy - s.freed == Bytes(s.blocks)
    && (s.blocks == [] ==> s.busy == 0)
  }

  ghost predicate Sound(sheets: seq<Sheet>) {
    && |sheets| > 0 && sheets[0] == SENTINEL
    && (forall i :: 1 <= i < |sheets| ==> Accounts(sheets[i]))
    && (forall i :: 1 <= i < |sheets| - 1 ==> sheets[i].blocks != [])
    && (forall i :: 1 <= i < |sheets| && sheets[i].capacity > PAGE_SIZE ==> Whole(sheets[i]))
    && (|sheets| > 1 ==> sheets[|sheets| - 1].capacity == PAGE_SIZE)
  }

  /** A page that one block takes up. */
  ghost predicate Whole(s: Sheet) {
    |s.blocks| == 1 && s == Sheet(s.capacity, s.capacity, 0, [Block(0, s.capacity, s.blocks[0].text)])
  }

  ghost predicate Fits(sheets: seq<Sheet>, size: nat)
    requires |sheets| > 0
  {
    sheets[|sheets| - 1].busy + size <= PAGE_SIZE
  }

  /** Which page gets the next block. */
  ghost function Target(sheets: seq<Sheet>, size: nat): nat
    requires |sheets| > 0
  {
    if Fits(sheets, size) then |sheets| - 1 else if size <= LARGE_THRESHOLD then |sheets| else |sheets| - 1
  }

  ghost function NewSheet(size: nat, text: bool): Sheet {
    Sheet(if size <= LARGE_THRESHOLD then PAGE_SIZE else size, size, 0, [Block(0, size, text)])
  }

  /** The pages after a block was handed out: at the end of the last page, on a new last page, or on one before it. */
  ghost function Allocated(sheets: seq<Sheet>, size: nat, text: bool): seq<Sheet>
    requires |sheets| > 0
  {
    var k := |sheets| - 1;
    var last := sheets[k];
    if Fits(sheets, size) then
      sheets[k := last.(busy := last.busy + size, blocks := last.blocks + [Block(last.busy, size, text)])]
    else if size <= LARGE_THRESHOLD then sheets + [NewSheet(size, text)]
    else sheets[..k] + [NewSheet(size, text), last]
  }

  /** A page after its block number b came back. */
  ghost function Returned(s: Sheet, b: nat): Sheet
    requires b < |s.blocks|
  {
    s.(freed := s.freed + s.blocks[b].size, blocks := Removed(s.blocks, b))
  }

  /**
   The pages after block b of page k came back: without the page when that was its last block, unless it is on top.
   */
  ghost function Freed(sheets: seq<Sheet>, k: nat, b: nat): seq<Sheet>
    requires k < |sheets| && b < |sheets[k].blocks|
  {
    var s := Returned(sheets[k], b);
    if s.blocks != [] then sheets[k := s]
    else if k == |sheets| - 1 then sheets[k := Sheet(s.capacity, 0, 0, [])]
    else Removed(sheets, k)
  }

  lemma FirstBlock(size: nat, text: bool)
    requires size > 0 && size % ALIGNMENT == 0
    ensures Laid([Block(0, size, text)], size) && Bytes([Block(0, size, text)]) == size
  {
    assert [Block(0, size, text)][..0] == [];
  }

  lemma NewSheetAccounts(size: nat, text: bool)
    requires size > 0 && size % ALIGNMENT == 0
    ensures Accounts(NewSheet(size, text))
    ensures NewSheet(size, text).capacity > PAGE_SIZE ==> Whole(NewSheet(size, text))
  {
    FirstBlock(size, text);
    hide Bytes, Laid;
  }

  lemma GrownAccounts(s: Sheet, size: nat, text: bool)
    requires Accounts(s) && size > 0 && size % ALIGNMENT == 0 && s.busy + size <= s.capacity
    ensures Accounts(s.(busy := s.busy + size, blocks := s.blocks + [Block(s.busy, size, text)]))
  {
    var r := s.blocks + [Block(s.busy, size, text)];
    assert r[..|s.blocks|] == s.blocks;
  }

  lemma ReplacedSound(sheets: seq<Sheet>, k: nat, s: Sheet)
    requires Sound(sheets) && 0 < k < |sheets| && Accounts(s) && s.capacity == sheets[k].capacity
    requires (k < |sheets| - 1 ==> s.blocks != []) && (s.capacity > PAGE_SIZE ==> Whole(s))
    ensures Sound(sheets[k := s])
  {
    hide Accounts, Whole;
  }

  lemma PushedSound(sheets: seq<Sheet>, s: Sheet)
    requires Sound(sheets) && Accounts(s) && s.capacity == PAGE_SIZE
    requires |sheets| > 1 && sheets[|sheets| - 1].blocks == [] ==> sheets[|sheets| - 1].busy == 0
    requires |sheets| > 1 ==> sheets[|sheets| - 1].busy > 0
    ensures Sound(sheets + [s])
  {
    hide Accounts, Whole;
  }

  lemma InsertedSound(sheets: seq<Sheet>, s: Sheet, last: Sheet)
    requires Sound(sheets + [last]) && sheets != [] && Accounts(s) && s.blocks != []
    requires s.capacity > PAGE_SIZE ==> Whole(s)
    ensures Sound(sheets + [s, last])
  {
    var r, t := sheets + [s, last], sheets + [last];
    assert forall i :: 0 <= i < |r| ==> r[i] == if i < |sheets| then t[i] else if i == |sheets| then s else t[|sheets|];
    hide Accounts, Whole;
  }

  lemma AllocateKeepsSound(sheets: seq<Sheet>, size: nat, text: bool)
    requires Sound(sheets) && size > 0 && size % ALIGNMENT == 0 && (|sheets| > 1 || size <= LARGE_THRESHOLD)
    ensures Sound(Allocated(sheets, size, text))
  {
    hide Sound, Accounts, Whole;
    NewSheetAccounts(size, text);
    TopPage(sheets);
    var k := |sheets| - 1;
    if Fits(sheets, size) {
      GrownAccounts(sheets[k], size, text);
      ReplacedSound(sheets, k,
        sheets[k].(busy := sheets[k].busy + size, blocks := sheets[k].blocks + [Block(sheets[k].busy, size, text)]));
    } else if size <= LARGE_THRESHOLD {
      PushedSound(sheets, NewSheet(size, text));
    } else {
      assert sheets == sheets[..k] + [sheets[k]];
      InsertedSound(sheets[..k], NewSheet(size, text), sheets[k]);
    }
  }

  lemma TopPage(sheets: seq<Sheet>)
    requires Sound(sheets)
    ensures |sheets| > 0
    ensures
      var top := sheets[|sheets| - 1];
      && (|sheets| == 1 ==> top.busy == PAGE_SIZE)
      && (|sheets| > 1 ==> Accounts(top) && top.capacity == PAGE_SIZE && (top.blocks == [] ==> top.busy == 0))
  {
  }

  lemma ReturnedAccounts(s: Sheet, b: nat)
    requires Accounts(s) && b < |s.blocks|
    ensures
      var r := Returned(s, b);
      && (r.freed == r.busy <==> r.blocks == [])
      && r.freed <= r.busy && (r.blocks != [] ==> Accounts(r))
  {
    BytesRemoved(s.blocks, b);
    LaidRemoved(s.blocks, s.busy, b);
    BytesOfNone(Removed(s.blocks, b));
    hide Bytes, Removed;
  }

  lemma RemovedSound(sheets: seq<Sheet>, k: nat)
    requires Sound(sheets) && 0 < k < |sheets| - 1
    ensures Sound(Removed(sheets, k))
  {
    var r := Removed(sheets, k);
    assert forall i :: 0 <= i < |r| ==> r[i] == sheets[if i < k then i else i + 1];
    hide Accounts, Whole, Removed;
  }

  lemma FreeKeepsSound(sheets: seq<Sheet>, k: nat, b: nat)
    requires Sound(sheets) && k < |sheets| && b < |sheets[k].blocks|
    ensures Sound(Freed(sheets, k, b))
  {
    var s := Returned(sheets[k], b);
    ReturnedAccounts(sheets[k], b);
    assert 0 < k && s.capacity == sheets[k].capacity;
    if s.blocks != [] {
      ReplacedSound(sheets, k, s);
    } else if k == |sheets| - 1 {
      ReplacedSound(sheets, k, Sheet(s.capacity, 0, 0, []));
    } else {
      RemovedSound(sheets, k);
    }
  }

  /** All blocks of all pages, with the place of their page. */
  ghost function LiveBytes(sheets: seq<Sheet>): nat {
    if sheets == [] then 0 else LiveBytes(sheets[..|sheets| - 1]) + Bytes(sheets[|sheets| - 1].blocks)
  }

  lemma {:induction false} LiveBytesAt(sheets: seq<Sheet>, k: nat, s: Sheet)
    requires k < |sheets|
    ensures LiveBytes(sheets[k := s]) == LiveBytes(sheets) - Bytes(sheets[k].blocks) + Bytes(s.blocks)
  {
    hide Bytes;
    var last, t := |sheets| - 1, sheets[k := s];
    if k == last {
      assert t[..last] == sheets[..last];
    } else {
      assert t[..last] == sheets[..last][k := s];
      LiveBytesAt(sheets[..last], k, s);
    }
  }

  lemma {:induction false} LiveBytesWithout(sheets: seq<Sheet>, k: nat)
    requires k < |sheets|
    ensures LiveBytes(Removed(sheets, k)) == LiveBytes(sheets) - Bytes(sheets[k].blocks)
  {
    hide Bytes;
    var last, t := |sheets| - 1, Removed(sheets, k);
    if k == last {
      assert t == sheets[..last];
    } else {
      assert t[..last - 1] == Removed(sheets[..last], k);
      LiveBytesWithout(sheets[..last], k);
    }
  }

  /** A block that comes back makes the live bytes less by its size. */
  lemma FreedBytes(sheets: seq<Sheet>, k: nat, b: nat)
    requires k < |sheets| && b < |sheets[k].blocks|
    ensures LiveBytes(Freed(sheets, k, b)) == LiveBytes(sheets) - sheets[k].blocks[b].size
  {
    var s := Returned(sheets[k], b);
    BytesRemoved(sheets[k].blocks, b);
    LiveBytesAt(sheets, k, s);
    LiveBytesAt(sheets, k, Sheet(s.capacity, 0, 0, []));
    LiveBytesWithout(sheets, k);
    assert s.blocks == [] ==> Bytes(s.blocks) == 0;
    hide LiveBytes, Removed;
  }

  lemma LiveBytesPlus(sheets: seq<Sheet>, s: Sheet)
    ensures LiveBytes(sheets + [s]) == LiveBytes(sheets) + Bytes(s.blocks)
  {
    hide Bytes;
    assert (sheets + [s])[..|sheets|] == sheets;
  }

  lemma BytesPlus(s: seq<Block>, b: Block)
    ensures Bytes(s + [b]) == Bytes(s) + b.size
  {
    assert (s + [b])[..|s|] == s;
  }

  /** A request makes the live bytes more by its size. */
  lemma AllocatedBytes(sheets: seq<Sheet>, size: nat, text: bool)
    requires |sheets| > 0
    ensures LiveBytes(Allocated(sheets, size, text)) == LiveBytes(sheets) + size
  {
    hide Bytes, LiveBytes;
    var k := |sheets| - 1;
    var last, page := sheets[k], NewSheet(size, text);
    OneBlockBytes(size, text);
    if Fits(sheets, size) {
      BytesPlus(last.blocks, Block(last.busy, size, text));
      LiveBytesAt(sheets, k, last.(busy := last.busy + size, blocks := last.blocks + [Block(last.busy, size, text)]));
    } else if size <= LARGE_THRESHOLD {
      LiveBytesPlus(sheets, page);
    } else {
      assert sheets == sheets[..k] + [last];
      LiveBytesBetween(sheets[..k], page, last);
    }
  }

  lemma OneBlockBytes(size: nat, text: bool)
    ensures Bytes(NewSheet(size, text).blocks) == size
  {
    BytesPlus([], Block(0, size, text));
    assert [] + [Block(0, size, text)] == [Block(0, size, text)];
  }

  lemma LiveBytesBetween(sheets: seq<Sheet>, page: Sheet, last: Sheet)
    ensures LiveBytes(sheets + [page, last]) == LiveBytes(sheets + [last]) + Bytes(page.blocks)
  {
    hide Bytes, LiveBytes;
    LiveBytesPlus(sheets, page);
    LiveBytesPlus(sheets, last);
    LiveBytesPlus(sheets + [page], last);
    assert sheets + [page] + [last] == sheets + [page, last];
  }

  // Runs

  /** One call: a request of so many bytes, or the return of block b of page k. */
  datatype Call = Request(size: nat, text: bool) | Return(k: nat, b: nat)

  ghost predicate Legal(sheets: seq<Sheet>, c: Call) {
    match c
    case Request(size, _) => size > 0 && size % ALIGNMENT == 0 && (|sheets| > 1 || size <= LARGE_THRESHOLD)
    case Return(k, b) => k < |sheets| && b < |sheets[k].blocks|
  }

  ghost function After(sheets: seq<Sheet>, c: Call): (r: seq<Sheet>)
    requires Sound(sheets) && Legal(sheets, c)
    ensures Sound(r)
  {
    match c
    case Request(size, text) => AllocateKeepsSound(sheets, size, text); Allocated(sheets, size, text)
    case Return(k, b) => FreeKeepsSound(sheets, k, b); Freed(sheets, k, b)
  }

  ghost predicate IsRun(sheets: seq<Sheet>, calls: seq<Call>)
    requires Sound(sheets)
    decreases |calls|
  {
    calls == [] || (Legal(sheets, calls[0]) && IsRun(After(sheets, calls[0]), calls[1..]))
  }

  ghost function Reached(sheets: seq<Sheet>, calls: seq<Call>): (r: seq<Sheet>)
    requires Sound(sheets) && IsRun(sheets, calls)
    ensures Sound(r)
    decreases |calls|
  {
    if calls == [] then sheets else Reached(After(sheets, calls[0]), calls[1..])
  }

  /** How many bytes a run asks for, less those that it returns. */
  ghost function Net(sheets: seq<Sheet>, calls: seq<Call>): int
    requires Sound(sheets) && IsRun(sheets, calls)
    decreases |calls|
  {
    if calls == [] then 0
    else
      var here := match calls[0] case Request(size, _) => size case Return(k, b) => 0 - sheets[k].blocks[b].size;
      here + Net(After(sheets, calls[0]), calls[1..])
  }

  /**
   After every run from a fresh document, the live blocks of a page lie apart inside it, busy minus freed is what they
   take, only the top page can be empty, and no byte was lost or counted twice.
   */
  lemma {:induction false} EveryRun(sheets: seq<Sheet>, calls: seq<Call>)
    requires Sound(sheets) && IsRun(sheets, calls)
    ensures
      var r := Reached(sheets, calls);
      && LiveBytes(r) == LiveBytes(sheets) + Net(sheets, calls)
      && (forall k :: 0 < k < |r| ==>
        r[k].busy <= r[k].capacity && Laid(r[k].blocks, r[k].busy) && r[k].busy - r[k].freed == Bytes(r[k].blocks))
      && (forall k :: 0 < k < |r| - 1 ==> r[k].blocks != [])
    decreases |calls|
  {
    hide Bytes, Laid, LiveBytes;
    if calls != [] {
      match calls[0] {
        case Request(size, text) => AllocatedBytes(sheets, size, text);
        case Return(k, b) => FreedBytes(sheets, k, b);
      }
      EveryRun(After(sheets, calls[0]), calls[1..]);
    } else {
      assert forall k :: 0 < k < |sheets| ==> Accounts(sheets[k]);
    }
  }

  // The pages in memory

  class Page {
    const capacity: nat
    var prev: Page?
    var next: Page?
    var busySize: nat
    var freedSize: nat

    constructor (capacity: nat)
      ensures this.capacity == capacity && prev == null && next == null && busySize == 0 && freedSize == 0
    {
      this.capacity := capacity;
      prev, next, busySize, freedSize := null, null, 0, 0;
    }
  }

  ghost function PageBefore(pages: seq<Page>, i: nat): Page?
    requires i < |pages|
  {
    if i > 0 then pages[i - 1] else null
  }

  ghost function PageAfter(pages: seq<Page>, i: nat): Page?
    requires i < |pages|
  {
    if i + 1 < |pages| then pages[i + 1] else null
  }

  /** The pages are linked from first to last and back. */
  ghost predicate Chained(pages: seq<Page>)
    reads pages`prev, pages`next
  {
    && Distinct(pages)
    && (forall i {:trigger pages[i].prev} :: 0 <= i < |pages| ==> pages[i].prev == PageBefore(pages, i))
    && (forall i {:trigger pages[i].next} :: 0 <= i < |pages| ==> pages[i].next == PageAfter(pages, i))
  }

  /** The pages' own numbers are those of the sheets; how much of the last one is busy is kept elsewhere. */
  ghost predicate Shows(pages: seq<Page>, sheets: seq<Sheet>)
    reads pages`busySize, pages`freedSize
  {
    && |pages| == |sheets|
    && (forall i :: 0 <= i < |pages| ==>
          pages[i].capacity == sheets[i].capacity && pages[i].freedSize == sheets[i].freed)
    && (forall i :: 0 <= i < |pages| - 1 ==> pages[i].busySize == sheets[i].busy)
  }

  // String headers

  /** An address: so many bytes after the first one that a page has for blocks. */
  datatype Place = Place(page: Page, offset: int)

  /** Two 16-bit numbers, in units of the alignment; a length of 0 stands for the whole page. */
  datatype StringHeader = StringHeader(pageOffset: nat, fullSize: nat)

  /** The header with its block's header and characters, rounded up to whole units. */
  function StringSize(length: nat): (size: nat)
    ensures size % ALIGNMENT == 0 && STRING_HEADER + length <= size < STRING_HEADER + length + ALIGNMENT
  {
    (STRING_HEADER + length + (ALIGNMENT - 1)) / ALIGNMENT * ALIGNMENT
  }

  function Encoded(offset: nat, size: nat): StringHeader {
    StringHeader((offset / ALIGNMENT) % UINT16, (if size < MAX_ENCODED_OFFSET then size / ALIGNMENT else 0) % UINT16)
  }

  /** Although it keeps 16 bits of each, the header of a string gives back where it is and how long it is. */
  lemma HeaderRecovers(sheets: seq<Sheet>, k: nat, b: nat)
    requires Sound(sheets) && k < |sheets| && b < |sheets[k].blocks|
    ensures
      var offset, size := sheets[k].blocks[b].offset, sheets[k].blocks[b].size;
      var header := Encoded(offset, size);
      && header.pageOffset * ALIGNMENT == offset
      && (if header.fullSize == 0 then sheets[k].busy else header.fullSize * ALIGNMENT) == size
      && (header.fullSize == 0 ==> k < |sheets| - 1)
  {
    assert 0 < k && Accounts(sheets[k]);
    assert sheets[k].blocks[b].offset + sheets[k].blocks[b].size <= sheets[k].capacity;
  }

  /** Every live string has its header in front of it. */
  ghost predicate Headed(pages: seq<Page>, sheets: seq<Sheet>, headers: map<Place, StringHeader>) {
    && |pages| == |sheets|
    && forall k, b :: 0 <= k < |sheets| && 0 <= b < |sheets[k].blocks| && sheets[k].blocks[b].text ==>
      HasHeader(pages[k], sheets[k].blocks[b], headers)
  }

  ghost predicate HasHeader(page: Page, b: Block, headers: map<Place, StringHeader>) {
    Place(page, b.offset) in headers && headers[Place(page, b.offset)] == Encoded(b.offset, b.size)
  }

  ghost function PagesAfter(pages: seq<Page>, sheets: seq<Sheet>, size: nat, page: Page): seq<Page>
    requires |pages| == |sheets| > 0
  {
    if Fits(sheets, size) then pages
    else if size <= LARGE_THRESHOLD then pages + [page]
    else pages[..|pages| - 1] + [page, pages[|pages| - 1]]
  }

  /** The place a request got is that of the last block of its page. */
  ghost predicate Got(pages: seq<Page>, sheets: seq<Sheet>, size: nat, page: Page, offset: nat) {
    && |pages| == |sheets| > 0
    && (Fits(sheets, size) ==> page == pages[|pages| - 1] && offset == sheets[|sheets| - 1].busy)
    && (!Fits(sheets, size) ==> page !in pages && offset == 0)
  }

  /** A block on the last page changes no page's own numbers. */
  lemma FastShows(pages: seq<Page>, sheets: seq<Sheet>, size: nat, text: bool)
    requires |sheets| > 0 && Shows(pages, sheets) && Fits(sheets, size)
    ensures |Allocated(sheets, size, text)| == |sheets| && Shows(pages, Allocated(sheets, size, text))
    ensures Allocated(sheets, size, text)[|sheets| - 1].busy == sheets[|sheets| - 1].busy + size
  {
  }

  /** The same, but for page k. */
  ghost predicate ShowsBut(pages: seq<Page>, sheets: seq<Sheet>, k: nat)
    reads pages`busySize, pages`freedSize
  {
    && |pages| == |sheets|
    && (forall i :: 0 <= i < |pages| && i != k ==>
      pages[i].capacity == sheets[i].capacity && pages[i].freedSize == sheets[i].freed)
    && (forall i :: 0 <= i < |pages| - 1 && i != k ==> pages[i].busySize == sheets[i].busy)
  }

  lemma RemovedShows(pages: seq<Page>, sheets: seq<Sheet>, k: nat)
    requires 0 < k < |pages| - 1 && ShowsBut(pages, sheets, k)
    ensures Shows(Removed(pages, k), Removed(sheets, k))
    ensures Removed(sheets, k)[|sheets| - 2] == sheets[|sheets| - 1]
    ensures Removed(pages, k)[|pages| - 2] == pages[|pages| - 1]
  {
  }

  lemma PushedSheets(sheets: seq<Sheet>, size: nat, text: bool)
    requires |sheets| > 0 && !Fits(sheets, size) && size <= LARGE_THRESHOLD
    ensures Allocated(sheets, size, text) == sheets + [NewSheet(size, text)]
  {
  }

  lemma InsertedSheets(sheets: seq<Sheet>, size: nat, text: bool)
    requires |sheets| > 0 && !Fits(sheets, size) && size > LARGE_THRESHOLD
    ensures Allocated(sheets, size, text) == sheets[..|sheets| - 1] + [NewSheet(size, text), sheets[|sheets| - 1]]
  {
  }

  lemma DifferentPages(pages: seq<Page>, i: nat, j: nat)
    requires Distinct(pages) && i < |pages| && j < |pages| && i != j
    ensures pages[i] != pages[j]
  {
  }

  lemma PageAround(pages: seq<Page>, k: nat)
    requires Distinct(pages) && 0 < k < |pages| - 1
    ensures PageBefore(pages, k) == pages[k - 1] && PageAfter(pages, k) == pages[k + 1]
    ensures pages[k - 1] != pages[k] && pages[k + 1] != pages[k]
  {
  }

  /** The list without page k, once its neighbours point at each other. */
  lemma ChainWithout(pages: seq<Page>, k: nat)
    requires Distinct(pages) && 0 < k < |pages| - 1
    requires forall i {:trigger pages[i].prev} :: 0 <= i < |pages| ==>
      pages[i].prev == if pages[i] == pages[k + 1] then pages[k - 1] else PageBefore(pages, i)
    requires forall i {:trigger pages[i].next} :: 0 <= i < |pages| ==>
      pages[i].next == if pages[i] == pages[k - 1] then pages[k + 1] else PageAfter(pages, i)
    ensures Chained(Removed(pages, k))
  {
    hide Removed, Distinct;
    RemovedDistinct(pages, k);
    var r := Removed(pages, k);
    forall i | 0 <= i < |r|
      ensures r[i].prev == PageBefore(r, i) && r[i].next == PageAfter(r, i)
    {
      var j := if i < k then i else i + 1;
      RemovedAt(pages, k, i - 1);
      RemovedAt(pages, k, i);
      RemovedAt(pages, k, i + 1);
      if j != k - 1 {
        DifferentPages(pages, j, k - 1);
      }
      if j != k + 1 {
        DifferentPages(pages, j, k + 1);
      }
      assert r[i] == pages[j];
    }
  }

  lemma ChainParts(pages: seq<Page>)
    requires Chained(pages)
    ensures Distinct(pages)
    ensures forall i {:trigger pages[i].prev} :: 0 <= i < |pages| ==> pages[i].prev == PageBefore(pages, i)
    ensures forall i {:trigger pages[i].next} :: 0 <= i < |pages| ==> pages[i].next == PageAfter(pages, i)
    ensures pages != [] ==> forall i :: 0 <= i < |pages| - 1 ==> pages[i] != pages[|pages| - 1]
  {
  }

  /** The list with one page more, once the last page and the new one point at each other. */
  lemma ChainPlus(pages: seq<Page>, page: Page)
    requires Distinct(pages) && pages != [] && page !in pages && page.prev == pages[|pages| - 1] && page.next == null
    requires forall i {:trigger pages[i].prev} :: 0 <= i < |pages| ==> pages[i].prev == PageBefore(pages, i)
    requires forall i {:trigger pages[i].next} :: 0 <= i < |pages| ==>
      pages[i].next == if pages[i] == pages[|pages| - 1] then page else PageAfter(pages, i)
    ensures Chained(pages + [page])
  {
    var r := pages + [page];
    forall i | 0 <= i < |r|
      ensures r[i].prev == PageBefore(r, i) && r[i].next == PageAfter(r, i)
    {
      if i < |pages| - 1 {
        DifferentPages(pages, i, |pages| - 1);
      }
      assert i < |pages| ==> r[i] == pages[i];
    }
  }

  lemma LastBefore(pages: seq<Page>)
    requires Chained(pages) && |pages| > 1
    ensures pages[|pages| - 1].prev == pages[|pages| - 2] != pages[|pages| - 1]
  {
  }

  /** The list with one page more before the last one. */
  lemma ChainBetween(pages: seq<Page>, page: Page)
    requires Distinct(pages) && |pages| > 1 && page !in pages
    requires page.prev == pages[|pages| - 2] && page.next == pages[|pages| - 1]
    requires forall i {:trigger pages[i].prev} :: 0 <= i < |pages| ==>
      pages[i].prev == if pages[i] == pages[|pages| - 1] then page else PageBefore(pages, i)
    requires forall i {:trigger pages[i].next} :: 0 <= i < |pages| ==>
      pages[i].next == if pages[i] == pages[|pages| - 2] then page else PageAfter(pages, i)
    ensures Chained(pages[..|pages| - 1] + [page, pages[|pages| - 1]])
  {
    var last := |pages| - 1;
    var r := pages[..last] + [page, pages[last]];
    assert forall i :: 0 <= i < |r| ==> r[i] == if i < last then pages[i] else if i == last then page else pages[last];
    forall i | 0 <= i < |r|
      ensures r[i].prev == PageBefore(r, i) && r[i].next == PageAfter(r, i)
    {
      if i < last {
        DifferentPages(pages, i, last);
        if i < last - 1 {
          DifferentPages(pages, i, last - 1);
        }
      } else {
        DifferentPages(pages, last - 1, last);
      }
    }
  }

  lemma LastInChain(pages: seq<Page>, k: nat)
    requires Chained(pages) && k < |pages|
    ensures pages[k].next == null <==> k == |pages| - 1
    ensures pages[k] == pages[|pages| - 1] <==> k == |pages| - 1
    ensures forall i :: 0 <= i < |pages| && i != k ==> pages[i] != pages[k]
  {
  }

  /** What a returned block leaves, in terms of the page's numbers. */
  lemma FreedCases(sheets: seq<Sheet>, k: nat, b: nat)
    requires Sound(sheets) && k < |sheets| && b < |sheets[k].blocks|
    ensures
      var s := Returned(sheets[k], b);
      && 0 < k && s.capacity == sheets[k].capacity
      && s.busy == sheets[k].busy && s.freed == sheets[k].freed + sheets[k].blocks[b].size
      && (s.freed == s.busy <==> |sheets[k].blocks| == 1)
      && Freed(sheets, k, b) ==
        if s.freed != s.busy then sheets[k := s]
        else if k == |sheets| - 1 then sheets[k := Sheet(s.capacity, 0, 0, [])]
        else Removed(sheets, k)
  {
    ReturnedAccounts(sheets[k], b);
  }

  /**
   The two numbers of a page and its link tell exactly when its last live block comes back, and then it is released.
   */
  lemma ReleasedWithItsLastBlock(pages: seq<Page>, sheets: seq<Sheet>, k: nat, b: nat)
    requires Sound(sheets) && Shows(pages, sheets) && Chained(pages) && k < |sheets| && b < |sheets[k].blocks|
    ensures
      var page, size := pages[k], sheets[k].blocks[b].size;
      && (|Freed(sheets, k, b)| < |sheets| <==> page.next != null && page.freedSize + size == page.busySize)
      && (page.next != null ==> (page.freedSize + size == page.busySize <==> |sheets[k].blocks| == 1))
  {
    hide Sound, Laid, Bytes, Chained, Distinct;
    LastInChain(pages, k);
    FreedCases(sheets, k, b);
  }

  /** The place of a new block is no live block's. */
  lemma PlaceIsNew(pages: seq<Page>, sheets: seq<Sheet>, size: nat, page: Page, offset: nat, k: nat, b: nat)
    requires Sound(sheets) && Got(pages, sheets, size, page, offset) && Distinct(pages)
    requires k < |sheets| && b < |sheets[k].blocks|
    ensures Place(pages[k], sheets[k].blocks[b].offset) != Place(page, offset)
  {
    assert 0 < k && Accounts(sheets[k]);
    if Fits(sheets, size) && k < |sheets| - 1 {
      DifferentPages(pages, k, |sheets| - 1);
    }
    hide Distinct;
  }

  lemma HeadedAllocated(pages: seq<Page>, sheets: seq<Sheet>, headers: map<Place, StringHeader>, size: nat, text: bool,
                        page: Page, offset: nat, headers': map<Place, StringHeader>)
    requires Sound(sheets) && Headed(pages, sheets, headers) && Got(pages, sheets, size, page, offset)
    requires Distinct(pages)
    requires forall p :: p in headers && p != Place(page, offset) ==> p in headers' && headers'[p] == headers[p]
    requires text ==> HasHeader(page, Block(offset, size, text), headers')
    ensures Headed(PagesAfter(pages, sheets, size, page), Allocated(sheets, size, text), headers')
  {
    var pages', sheets' := PagesAfter(pages, sheets, size, page), Allocated(sheets, size, text);
    forall k, b | 0 <= k < |sheets'| && 0 <= b < |sheets'[k].blocks| && sheets'[k].blocks[b].text
      ensures HasHeader(pages'[k], sheets'[k].blocks[b], headers')
    {
      var last := |sheets| - 1;
      var j := if !Fits(sheets, size) && size > LARGE_THRESHOLD && k == last + 1 then last else k;
      if k < last || (k == last && Fits(sheets, size) && b < |sheets[k].blocks|) || (k == last && !Fits(sheets, size) &&
        size <= LARGE_THRESHOLD) || j < k {
        assert sheets'[k].blocks[b] == sheets[j].blocks[b] && pages'[k] == pages[j];
        PlaceIsNew(pages, sheets, size, page, offset, j, b);
      } else {
        assert sheets'[k].blocks[b] == Block(offset, size, text) && pages'[k] == page;
      }
    }
  }

  lemma HeadedFreed(pages: seq<Page>, sheets: seq<Sheet>, headers: map<Place, StringHeader>, k: nat, b: nat)
    requires Headed(pages, sheets, headers) && k < |sheets| && b < |sheets[k].blocks|
    ensures
      var sheets' := Freed(sheets, k, b);
      Headed(if |sheets'| < |sheets| then Removed(pages, k) else pages, sheets', headers)
  {
    var sheets' := Freed(sheets, k, b);
    var pages' := if |sheets'| < |sheets| then Removed(pages, k) else pages;
    forall i, c | 0 <= i < |sheets'| && 0 <= c < |sheets'[i].blocks| && sheets'[i].blocks[c].text
      ensures HasHeader(pages'[i], sheets'[i].blocks[c], headers)
    {
      var j := if |sheets'| < |sheets| && i >= k then i + 1 else i;
      var d := if j == k && c >= b then c + 1 else c;
      assert pages'[i] == pages[j] && sheets'[i].blocks[c] == sheets[j].blocks[d];
    }
  }

  class Allocator {
    var root: Page
    var busySize: nat
    /** The bytes of the headers that were written in front of strings. */
    var headers: map<Place, StringHeader>
    ghost var pages: seq<Page>
    ghost var sheets: seq<Sheet>

    /** The pages are linked up to the root, and their numbers account for the live blocks. */
    ghost predicate Valid()
      reads this, pages
    {
      && |pages| == |sheets| > 0 && root == pages[|pages| - 1]
      && Sound(sheets) && Chained(pages) && Shows(pages, sheets)
      && busySize == sheets[|sheets| - 1].busy
    }

    constructor ()
      ensures Valid() && fresh(pages) && sheets == [SENTINEL]
    {
      var page := new Page(0);
      page.busySize := PAGE_SIZE;
      root, busySize := page, PAGE_SIZE;
      pages, sheets, headers := [page], [SENTINEL], map[];
    }

    method AllocateMemory(size: nat, ghost text: bool) returns (page: Page, offset: nat)
      requires Valid() && size > 0 && size % ALIGNMENT == 0 && (|sheets| > 1 || size <= LARGE_THRESHOLD)
      modifies this, pages
      ensures Valid() && sheets == Allocated(old(sheets), size, text) && headers == old(headers)
      ensures page == old(root) || (fresh(page) && page !in old(pages))
      ensures Got(old(pages), old(sheets), size, page, offset)
      ensures pages == PagesAfter(old(pages), old(sheets), size, page)
    {
      hide Sound, Shows, Chained, Allocated;
      AllocateKeepsSound(sheets, size, text);
      if busySize + size > PAGE_SIZE {
        page := AllocateMemoryOutOfBand(size, text);
        offset := 0;
        return;
      }
      FastShows(pages, sheets, size, text);
      offset := busySize;
      page := root;
      sheets := Allocated(sheets, size, text);
      busySize := busySize + size;
    }

    method AllocateMemoryOutOfBand(size: nat, ghost text: bool) returns (page: Page)
      requires Valid() && size > 0 && size % ALIGNMENT == 0 && (|sheets| > 1 || size <= LARGE_THRESHOLD)
      requires busySize + size > PAGE_SIZE
      modifies this, pages
      ensures Valid() && sheets == Allocated(old(sheets), size, text) && headers == old(headers)
      ensures fresh(page) && page !in old(pages)
      ensures pages == if size <= LARGE_THRESHOLD then old(pages) + [page]
        else old(pages)[..|old(pages)| - 1] + [page, old(root)]
    {
      hide Sound, Shows, Chained, Allocated;
      AllocateKeepsSound(sheets, size, text);
      page := new Page(if size <= LARGE_THRESHOLD then PAGE_SIZE else size);
      if size <= LARGE_THRESHOLD {
        PushPage(page, size, text);
      } else {
        InsertPage(page, size, text);
      }
    }

    /** Insert the page at the end of the list. */
    method PushPage(page: Page, size: nat, ghost text: bool)
      requires Valid() && page !in pages && page.prev == null && page.next == null && page.freedSize == 0
      requires !Fits(sheets, size) && size <= LARGE_THRESHOLD && page.capacity == PAGE_SIZE
      requires Sound(Allocated(sheets, size, text))
      modifies this, page, pages
      ensures Valid() && headers == old(headers) && pages == old(pages) + [page]
      ensures sheets == Allocated(old(sheets), size, text)
    {
      hide Sound, Allocated, Chained, Distinct, PageBefore, PageAfter, Headed;
      PushedSheets(sheets, size, text);
      ChainParts(pages);
      ghost var was := pages;
      root.busySize := busySize;
      page.prev := root;
      root.next := page;
      assert forall i {:trigger was[i].prev} :: 0 <= i < |was| ==> was[i].prev == PageBefore(was, i);
      assert forall i {:trigger was[i].next} :: 0 <= i < |was| ==>
        was[i].next == if was[i] == was[|was| - 1] then page else PageAfter(was, i);
      ChainPlus(was, page);
      root := page;
      busySize := size;
      pages := pages + [page];
      sheets := sheets + [NewSheet(size, text)];
    }

    /** Insert the page before the end of the list. */
    method InsertPage(page: Page, size: nat, ghost text: bool)
      requires Valid() && |pages| > 1 && page !in pages && page.prev == null && page.next == null && page.freedSize == 0
      requires !Fits(sheets, size) && size > LARGE_THRESHOLD && page.capacity == size
      requires Sound(Allocated(sheets, size, text))
      modifies this, page, pages
      ensures Valid() && headers == old(headers) && pages == old(pages)[..|old(pages)| - 1] + [page, old(root)]
      ensures sheets == Allocated(old(sheets), size, text)
    {
      hide Sound, Allocated, Chained, Distinct, PageBefore, PageAfter, Headed;
      InsertedSheets(sheets, size, text);
      ChainParts(pages);
      ghost var was, last := pages, |pages| - 1;
      LastBefore(pages);
      page.prev := root.prev;
      page.next := root;
      root.prev.next := page;
      root.prev := page;
      page.busySize := size;
      assert forall i {:trigger was[i].prev} :: 0 <= i < |was| ==>
        was[i].prev == if was[i] == was[last] then page else PageBefore(was, i);
      assert forall i {:trigger was[i].next} :: 0 <= i < |was| ==>
        was[i].next == if was[i] == was[last - 1] then page else PageAfter(was, i);
      ChainBetween(was, page);
      pages := pages[..last] + [page, root];
      sheets := sheets[..last] + [NewSheet(size, text), sheets[last]];
    }

    /** Block b of page k comes back. */
    method DeallocateMemory(page: Page, offset: nat, size: nat, ghost k: nat, ghost b: nat)
      requires Valid() && k < |pages| && pages[k] == page
      requires b < |sheets[k].blocks| && sheets[k].blocks[b].offset == offset && sheets[k].blocks[b].size == size
      modifies this, pages
      ensures Valid() && sheets == Freed(old(sheets), k, b) && headers == old(headers)
      ensures pages == if |sheets| < |old(sheets)| then Removed(old(pages), k) else old(pages)
    {
      hide Sound, Laid, Bytes, Chained, Freed, Removed, Headed, Distinct, Returned;
      FreeKeepsSound(sheets, k, b);
      LastInChain(pages, k);
      FreedCases(sheets, k, b);
      if page == root {
        page.busySize := busySize;
      }
      page.freedSize := page.freedSize + size;
      if page.freedSize == page.busySize {
        if page.next == null {
          Reset(page, k, b);
        } else {
          Unlink(page, k, b);
        }
      } else {
        sheets := Freed(sheets, k, b);
      }
    }

    /** The top page starts again. */
    method Reset(page: Page, ghost k: nat, ghost b: nat)
      requires |pages| == |sheets| > 0 && k == |pages| - 1 && root == page == pages[k] && Chained(pages)
      requires b < |sheets[k].blocks| && Sound(Freed(sheets, k, b))
      requires Freed(sheets, k, b) == sheets[k := Sheet(sheets[k].capacity, 0, 0, [])] && ShowsBut(pages, sheets, k)
      requires page.capacity == sheets[k].capacity
      modifies this, pages
      ensures Valid() && sheets == Freed(old(sheets), k, b) && pages == old(pages) && headers == old(headers)
    {
      hide Sound, Chained, Freed;
      LastInChain(pages, k);
      page.busySize := 0;
      page.freedSize := 0;
      busySize := 0;
      sheets := Freed(sheets, k, b);
    }

    /** Take page k out of the list. */
    method Unlink(page: Page, ghost k: nat, ghost b: nat)
      requires |pages| == |sheets| > 0 && root == pages[|pages| - 1] && Chained(pages)
      requires 0 < k < |pages| - 1 && page == pages[k] && b < |sheets[k].blocks|
      requires Freed(sheets, k, b) == Removed(sheets, k) && Sound(Removed(sheets, k))
      requires ShowsBut(pages, sheets, k) && busySize == sheets[|sheets| - 1].busy
      modifies this, pages
      ensures Valid() && headers == old(headers)
      ensures sheets == Freed(old(sheets), k, b) && pages == Removed(old(pages), k)
    {
      hide Sound, Freed, Shows, ShowsBut, Removed, Distinct, PageBefore, PageAfter;
      ghost var before, after, was := pages[k - 1], pages[k + 1], pages;
      RemovedShows(pages, sheets, k);
      RemovedDistinct(pages, k);
      PageAround(pages, k);
      page.prev.next := page.next;
      page.next.prev := page.prev;
      assert forall i {:trigger was[i].prev} :: 0 <= i < |was| ==>
        was[i].prev == if was[i] == after then before else PageBefore(was, i);
      assert forall i {:trigger was[i].next} :: 0 <= i < |was| ==>
        was[i].next == if was[i] == before then after else PageAfter(was, i);
      ChainWithout(was, k);
      pages, sheets := Removed(was, k), Removed(sheets, k);
    }

    /** Memory for a node or an attribute. */
    method AllocateObject(size: nat) returns (place: Place)
      requires Valid() && Headed(pages, sheets, headers)
      requires size > 0 && size % ALIGNMENT == 0 && (|sheets| > 1 || size <= LARGE_THRESHOLD)
      modifies this, pages
      ensures Valid() && Headed(pages, sheets, headers) && sheets == Allocated(old(sheets), size, false)
      ensures place.offset >= 0 && Got(old(pages), old(sheets), size, place.page, place.offset)
      ensures pages == PagesAfter(old(pages), old(sheets), size, place.page)
      ensures place.page == old(root) || fresh(place.page)
    {
      hide Sound, Shows, Chained, Allocated, PagesAfter, Got, Headed;
      ghost var pages', sheets' := pages, sheets;
      ChainParts(pages);
      var page, offset := AllocateMemory(size, false);
      HeadedAllocated(pages', sheets', headers, size, false, page, offset, headers);
      return Place(page, offset);
    }

    /** Memory for a string; its header goes in front of it. */
    method AllocateString(length: nat) returns (chars: Place)
      requires Valid() && Headed(pages, sheets, headers)
      requires |sheets| > 1 || StringSize(length) <= LARGE_THRESHOLD
      modifies this, pages
      ensures Valid() && Headed(pages, sheets, headers) && sheets == Allocated(old(sheets), StringSize(length), true)
      ensures chars.offset >= STRING_HEADER
      ensures Got(old(pages), old(sheets), StringSize(length), chars.page, chars.offset - STRING_HEADER)
      ensures pages == PagesAfter(old(pages), old(sheets), StringSize(length), chars.page)
      ensures chars.page == old(root) || fresh(chars.page)
    {
      hide Sound, Shows, Chained, Allocated, PagesAfter, Got, Headed;
      ghost var pages', sheets', headers' := pages, sheets, headers;
      ChainParts(pages);
      var fullSize := StringSize(length);
      var page, pageOffset := AllocateMemory(fullSize, true);
      headers := headers[Place(page, pageOffset) := Encoded(pageOffset, fullSize)];
      HeadedAllocated(pages', sheets', headers', fullSize, true, page, pageOffset, headers);
      return Place(page, pageOffset + STRING_HEADER);
    }

    /** Give a node or an attribute back. */
    method DeallocateObject(place: Place, size: nat, ghost k: nat, ghost b: nat)
      requires Valid() && Headed(pages, sheets, headers)
      requires k < |pages| && pages[k] == place.page && b < |sheets[k].blocks|
      requires var block := sheets[k].blocks[b]; block.offset == place.offset && block.size == size && !block.text
      modifies this, pages
      ensures Valid() && Headed(pages, sheets, headers) && sheets == Freed(old(sheets), k, b)
      ensures pages == if |sheets| < |old(sheets)| then Removed(old(pages), k) else old(pages)
    {
      hide Sound, Shows, Chained, Freed, Headed;
      HeadedFreed(pages, sheets, headers, k, b);
      DeallocateMemory(place.page, place.offset, size, k, b);
    }

    /** Give a string back: the header says where its page starts and how long the block is. */
    method DeallocateString(chars: Place, ghost k: nat, ghost b: nat)
      requires Valid() && Headed(pages, sheets, headers)
      requires k < |pages| && pages[k] == chars.page && b < |sheets[k].blocks|
      requires sheets[k].blocks[b].text && sheets[k].blocks[b].offset == chars.offset - STRING_HEADER
      modifies this, pages
      ensures Valid() && Headed(pages, sheets, headers) && sheets == Freed(old(sheets), k, b)
      ensures pages == if |sheets| < |old(sheets)| then Removed(old(pages), k) else old(pages)
    {
      HeaderRecovers(sheets, k, b);
      HeaderAt(pages, sheets, headers, k, b);
      BusyIsKept(pages, sheets, k);
      hide Sound, Shows, Chained, Freed, Headed, Encoded;
      HeadedFreed(pages, sheets, headers, k, b);
      var start := Place(chars.page, chars.offset - STRING_HEADER);
      var header := headers[start];
      var page := PageAt(Place(start.page, start.offset - (PAGE_FIELDS + header.pageOffset * ALIGNMENT)));
      var fullSize := if header.fullSize == 0 then page.busySize else header.fullSize * ALIGNMENT;
      DeallocateMemory(page, start.offset, fullSize, k, b);
    }
  }

  /** The page whose own fields are at an address. */
  function PageAt(place: Place): Page
    requires place.offset + PAGE_FIELDS == 0
  {
    place.page
  }

  lemma HeaderAt(pages: seq<Page>, sheets: seq<Sheet>, headers: map<Place, StringHeader>, k: nat, b: nat)
    requires Headed(pages, sheets, headers) && k < |sheets| && b < |sheets[k].blocks| && sheets[k].blocks[b].text
    ensures HasHeader(pages[k], sheets[k].blocks[b], headers)
  {
  }

  lemma BusyIsKept(pages: seq<Page>, sheets: seq<Sheet>, k: nat)
    requires Shows(pages, sheets) && k < |sheets|
    ensures k < |sheets| - 1 ==> pages[k].busySize == sheets[k].busy
  {
  }
}
