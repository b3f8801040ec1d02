/** The physical frame allocator: mm/page_alloc.c.

`Mem` is the abstract state: physical memory and, for each frame below the total, whether it
is in use. `PhysMemory` is the allocator as the source keeps it: a bitmap of 64-bit words, a
free count and a search hint. Its methods are proved against the functions on `Mem`. */
module FrameAlloc {
  import opened Wrappers
  import Bytes
  import opened Pgtable

  const MAX_PHYS_PAGES: nat := 65536
  const BITS_PER_WORD: nat := 64

  datatype Mem = Memory(ram: Ram, used: seq<bool>)

  ghost predicate ValidMem(m: Mem) { |m.used| <= MAX_PHYS_PAGES }

  predicate Free(m: Mem, f: nat) { f < |m.used| && !m.used[f] }

  // ---- specification

  function LowestFree(used: seq<bool>, from: nat): (r: Option<nat>)
    requires from <= |used|
    ensures r.Some? ==> from <= r.value < |used| && !used[r.value] && forall j :: from <= j < r.value ==> used[j]
    ensures r.None? ==> forall j :: from <= j < |used| ==> used[j]
    decreases |used| - from
  {
    if from == |used| then None else if !used[from] then Some(from) else LowestFree(used, from + 1)
  }

  // `None` is the out-of-memory halt.
  datatype Grant = Grant(mem: Mem, frame: nat)

  // The lowest free frame, zeroed and marked.
  function Alloc(m: Mem): (r: Option<Grant>)
    requires ValidMem(m)
    ensures r.None? <==> forall f :: !Free(m, f)
    ensures r.Some? ==> Free(m, r.value.frame) && ValidMem(r.value.mem)
    ensures r.Some? ==> forall f :: Free(m, f) ==> r.value.frame <= f
  {
    match LowestFree(m.used, 0)
    case None => None
    case Some(f) =>
      assert Free(m, f);
      Some(Grant(Memory(m.ram[f := ZeroPage()], m.used[f := true]), f))
  }

  // The frame number is narrowed to 32 bits before the range test.
  function FreeIndex(phys: nat): nat { phys / 4096 % 0x1_0000_0000 }

  function Release(m: Mem, phys: nat): Mem {
    var i := FreeIndex(phys);
    if i < |m.used| then m.(used := m.used[i := false]) else m
  }

  // Releasing the address of a frame that is in range frees that frame.
  lemma ReleaseFrame(m: Mem, f: nat)
    requires ValidMem(m) && f < |m.used|
    ensures Release(m, f * 4096) == Memory(m.ram, m.used[f := false])
  {
    assert FreeIndex(f * 4096) == f;
  }

  // What free_page should do to an address of any size: its frame is freed if it is in range.
  function ReleaseOf(m: Mem, phys: nat): Mem {
    var n := phys / 4096;
    if n < |m.used| then m.(used := m.used[n := false]) else m
  }

  // It does so exactly when narrowing the frame number to 32 bits does not hit a frame in use.
  lemma ReleaseIff(m: Mem, phys: nat)
    requires ValidMem(m)
    ensures Release(m, phys) == ReleaseOf(m, phys) <==>
      var n := phys / 4096;
      n < 0x1_0000_0000 || n % 0x1_0000_0000 >= |m.used| || !m.used[n % 0x1_0000_0000]
  {
    var n := phys / 4096;
    if n >= 0x1_0000_0000 && n % 0x1_0000_0000 < |m.used| {
      var i := n % 0x1_0000_0000;
      if m.used[i] { assert m.used[i := false][i] != m.used[i]; } else { assert m.used[i := false] == m.used; }
    }
  }

  // Freeing the address 2^44 frees frame 0.
  lemma ReleaseWraps(m: Mem)
    requires ValidMem(m) && |m.used| > 0 && m.used[0]
    ensures !Release(m, 0x1000_0000_0000).used[0]
  {
  }

  function CountFree(used: seq<bool>): nat {
    if used == [] then 0 else CountFree(used[..|used| - 1]) + if used[|used| - 1] then 0 else 1
  }

  lemma {:induction false} CountFreeUpdate(used: seq<bool>, i: nat, b: bool)
    requires i < |used|
    ensures CountFree(used[i := b]) == CountFree(used) + (if used[i] then 1 else 0) - (if b then 1 else 0)
  {
    var n := |used| - 1;
    if i == n {
      assert used[i := b][..n] == used[..n];
    } else {
      assert used[i := b][..n] == used[..n][i := b];
      CountFreeUpdate(used[..n], i, b);
    }
  }

  lemma {:induction false} CountFreeZero(used: seq<bool>)
    ensures CountFree(used) == 0 <==> forall i :: 0 <= i < |used| ==> used[i]
  {
    if used != [] {
      var n := |used| - 1;
      CountFreeZero(used[..n]);
      assert forall i :: 0 <= i < n ==> used[..n][i] == used[i];
    }
  }

  // ---- runs

  datatype Op = AllocOp | FreeOp(phys: nat)

  // The state after each operation, or `None` once an allocation has halted.
  function After(m: Mem, ops: seq<Op>): (r: Option<Mem>)
    requires ValidMem(m)
    ensures r.Some? ==> ValidMem(r.value) && |r.value.used| == |m.used|
  {
    if ops == [] then Some(m)
    else
      match After(m, ops[..|ops| - 1])
      case None => None
      case Some(m') => Step(m', ops[|ops| - 1])
  }

  function Step(m: Mem, op: Op): (r: Option<Mem>)
    requires ValidMem(m)
    ensures r.Some? ==> ValidMem(r.value) && |r.value.used| == |m.used|
  {
    match op
    case AllocOp => (match Alloc(m) case None => None case Some(g) => Some(g.mem))
    case FreeOp(phys) => Some(Release(m, phys))
  }

  // The frame that operation k hands out.
  function Issued(m: Mem, ops: seq<Op>, k: nat): Option<nat>
    requires ValidMem(m) && k < |ops|
  {
    match After(m, ops[..k])
    case None => None
    case Some(m') =>
      if ops[k].FreeOp? then None
      else match Alloc(m') case None => None case Some(g) => Some(g.frame)
  }

  lemma AfterNext(m: Mem, ops: seq<Op>, k: nat)
    requires ValidMem(m) && k < |ops|
    ensures After(m, ops[..k + 1]) ==
            match After(m, ops[..k]) case None => None case Some(m') => Step(m', ops[k])
  {
    assert ops[..k + 1][..k] == ops[..k];
  }

  // A frame in use stays in use until an operation frees it.
  lemma {:induction false} StaysUsed(m: Mem, ops: seq<Op>, i: nat, j: nat, f: nat)
    requires ValidMem(m) && i <= j <= |ops|
    requires After(m, ops[..j]).Some?
    requires forall k :: i <= k < j && ops[k].FreeOp? ==> FreeIndex(ops[k].phys) != f
    requires After(m, ops[..i]).Some? && f < |m.used| && After(m, ops[..i]).value.used[f]
    ensures After(m, ops[..j]).value.used[f]
    decreases j
  {
    if i < j {
      AfterNext(m, ops, j - 1);
      StaysUsed(m, ops, i, j - 1, f);
    }
  }

  // No frame is issued twice without being freed in between.
  lemma {:induction false} NoDoubleIssue(m: Mem, ops: seq<Op>, i: nat, j: nat)
    requires ValidMem(m) && i < j < |ops|
    requires Issued(m, ops, i).Some? && Issued(m, ops, i) == Issued(m, ops, j)
    ensures exists k :: i < k < j && ops[k].FreeOp? && FreeIndex(ops[k].phys) == Issued(m, ops, i).value
  {
    var f := Issued(m, ops, i).value;
    if forall k :: i < k < j && ops[k].FreeOp? ==> FreeIndex(ops[k].phys) != f {
      AfterNext(m, ops, i);
      StaysUsed(m, ops, i + 1, j, f);
      assert false;
    }
  }

  // ---- bitmap words

  // `1ULL << k`, as one doubled k times: MaskShift.
  function Mask(k: nat): bv64 { if k == 0 then 1 else Mask(k - 1) + Mask(k - 1) }

  // It is the shift of the source, by the byte a with number k. Every k has one: Bytes.ByteBack.
  lemma {:induction false} MaskShift(a: bv8, k: nat)
    requires Bytes.ByteNumber(a) == k < 64
    ensures Mask(k) == (1 as bv64) << a
    decreases k
  {
    if k == 0 {
      Bytes.ZeroByte(a);
    } else {
      Bytes.PreviousByte(a, k);
      MaskShift(a - 1, k - 1);
      ShiftDoubles(a - 1);
    }
  }

  lemma ShiftDoubles(a: bv8)
    requires a < 63
    ensures (1 as bv64) << (a + 1) == ((1 as bv64) << a) + ((1 as bv64) << a)
  {
  }

  lemma ShiftApart(a: bv64, b: bv64)
    ensures 1 & (b + b) == 0
    ensures a & b == 0 ==> (a + a) & (b + b) == 0
  {
  }

  // The masks of two bits have no bit in common.
  lemma {:induction false} MasksApart(j: nat, k: nat)
    requires j < k
    ensures Mask(j) & Mask(k) == 0
    decreases k
  {
    if j == 0 {
      ShiftApart(1, Mask(k - 1));
    } else {
      MasksApart(j - 1, k - 1);
      ShiftApart(Mask(j - 1), Mask(k - 1));
    }
  }

  lemma {:induction false} TopMask()
    ensures Mask(63) == 0x8000_0000_0000_0000
  {
    assert Mask(8) == 0x100;
    assert Mask(16) == 0x1_0000;
    assert Mask(24) == 0x100_0000;
    assert Mask(32) == 0x1_0000_0000;
    assert Mask(40) == 0x100_0000_0000;
    assert Mask(48) == 0x1_0000_0000_0000;
    assert Mask(56) == 0x100_0000_0000_0000;
  }

  lemma ShiftKeeps(a: bv64)
    requires a != 0 && a & 0x8000_0000_0000_0000 == 0
    ensures a + a != 0
  {
  }

  // No bit of the word is lost.
  lemma {:induction false} MaskNotZero(k: nat)
    requires k < 64
    ensures Mask(k) != 0
  {
    if k > 0 {
      MaskNotZero(k - 1);
      MasksApart(k - 1, 63);
      TopMask();
      ShiftKeeps(Mask(k - 1));
    }
  }

  lemma Commutes(x: bv64, y: bv64)
    ensures x & y == y & x
  {
  }

  lemma SetSame(w: bv64, x: bv64)
    requires x != 0
    ensures (w | x) & x != 0
  {
    assert (w | x) & x == x;
  }

  lemma SetOther(w: bv64, x: bv64, y: bv64)
    requires x & y == 0
    ensures (w | x) & y == w & y
  {
  }

  lemma ClearSame(w: bv64, x: bv64)
    ensures (w & !x) & x == 0
  {
  }

  lemma ClearOther(w: bv64, x: bv64, y: bv64)
    requires x & y == 0
    ensures (w & !x) & y == w & y
  {
  }

  lemma {:induction false} Disjoint(j: nat, k: nat)
    requires j != k
    ensures Mask(k) & Mask(j) == 0
  {
    if j < k {
      MasksApart(j, k);
      Commutes(Mask(j), Mask(k));
    } else {
      MasksApart(k, j);
    }
  }

  function Written(w: bv64, mask: bv64, b: bool): bv64 { if b then w | mask else w & !mask }

  function WrittenWord(w: bv64, k: nat, b: bool): bv64
    requires k < 64
  {
    Written(w, Mask(k), b)
  }

  predicate TestWord(w: bv64, k: nat)
    requires k < 64
  {
    w & Mask(k) != 0
  }

  lemma {:induction false} ReadsSet(w: bv64, k: nat, x: bv64)
    requires k < 64 && x == Mask(k) && w & x != 0
    ensures TestWord(w, k)
  {
  }

  lemma {:induction false} ReadsClear(w: bv64, k: nat, x: bv64)
    requires k < 64 && x == Mask(k) && w & x == 0
    ensures !TestWord(w, k)
  {
  }

  lemma {:induction false} ReadsSame(w: bv64, v: bv64, k: nat, x: bv64)
    requires k < 64 && x == Mask(k) && w & x == v & x
    ensures TestWord(w, k) == TestWord(v, k)
  {
    if w & x == 0 {
      ReadsClear(w, k, x);
      ReadsClear(v, k, x);
    } else {
      ReadsSet(w, k, x);
      ReadsSet(v, k, x);
    }
  }

  lemma {:induction false} ThisBit(w: bv64, k: nat, x: bv64, b: bool, v: bv64)
    requires k < 64 && x == Mask(k) && v == Written(w, x, b)
    ensures TestWord(v, k) == b
  {
    if b {
      MaskNotZero(k);
      SetSame(w, x);
      ReadsSet(v, k, x);
    } else {
      ClearSame(w, x);
      ReadsClear(v, k, x);
    }
  }

  lemma OtherWord(w: bv64, x: bv64, b: bool, v: bv64, y: bv64)
    requires x & y == 0 && v == Written(w, x, b)
    ensures v & y == w & y
  {
    if b { SetOther(w, x, y); } else { ClearOther(w, x, y); }
  }

  lemma {:induction false} OtherBit(w: bv64, x: bv64, b: bool, v: bv64, j: nat, y: bv64)
    requires j < 64 && y == Mask(j) && x & y == 0
    requires v == Written(w, x, b)
    ensures TestWord(v, j) == TestWord(w, j)
  {
    OtherWord(w, x, b, v, y);
    ReadsSame(v, w, j, y);
  }

  // Setting or clearing one bit of a word changes what that bit reads as, and no other.
  lemma {:induction false} BitWritten(w: bv64, k: nat, b: bool, j: nat)
    requires j < 64 && k < 64
    ensures TestWord(WrittenWord(w, k, b), j) == if j == k then b else TestWord(w, j)
  {
    var v := WrittenWord(w, k, b);
    if j == k {
      ThisBit(w, k, Mask(k), b, v);
    } else {
      Disjoint(j, k);
      OtherBit(w, Mask(k), b, v, j, Mask(j));
    }
  }

  predicate TestBit(words: seq<bv64>, i: nat)
    requires i / BITS_PER_WORD < |words|
  {
    TestWord(words[i / BITS_PER_WORD], i % BITS_PER_WORD)
  }

  function WriteBit(words: seq<bv64>, i: nat, b: bool): seq<bv64>
    requires i / BITS_PER_WORD < |words|
  {
    words[i / BITS_PER_WORD := WrittenWord(words[i / BITS_PER_WORD], i % BITS_PER_WORD, b)]
  }

  // The bitmap has one bit per frame, set for the frames in use.
  ghost predicate BitmapIs(words: seq<bv64>, used: seq<bool>) {
    && |used| <= |words| * BITS_PER_WORD
    && forall i {:trigger TestBit(words, i)} :: 0 <= i < |used| ==> TestBit(words, i) == used[i]
  }

  lemma BitmapWritten(words: seq<bv64>, used: seq<bool>, i: nat, b: bool)
    requires BitmapIs(words, used) && i < |used|
    ensures BitmapIs(WriteBit(words, i, b), used[i := b])
  {
    forall j | 0 <= j < |used|
      ensures TestBit(WriteBit(words, i, b), j) == if i == j then b else TestBit(words, j)
    {
      BitOfBitmap(words, i, b, j);
    }
  }

  lemma BitmapPast(words: seq<bv64>, used: seq<bool>, i: nat)
    requires BitmapIs(words, used) && |used| <= i && i / BITS_PER_WORD < |words|
    ensures BitmapIs(WriteBit(words, i, true), used)
  {
    forall j | 0 <= j < |used|
      ensures TestBit(WriteBit(words, i, true), j) == TestBit(words, j)
    {
      BitOfBitmap(words, i, true, j);
    }
  }

  lemma BitOfBitmap(words: seq<bv64>, i: nat, b: bool, j: nat)
    requires i / BITS_PER_WORD < |words| && j / BITS_PER_WORD < |words|
    ensures TestBit(WriteBit(words, i, b), j) == if i == j then b else TestBit(words, j)
  {
    SplitIndex(i, j);
    WordOfBitmap(words, i / BITS_PER_WORD, i % BITS_PER_WORD, b, j / BITS_PER_WORD, j % BITS_PER_WORD);
  }

  lemma WordOfBitmap(words: seq<bv64>, a: nat, k: nat, b: bool, c: nat, l: nat)
    requires a < |words| && c < |words| && k < 64 && l < 64
    ensures TestWord(words[a := WrittenWord(words[a], k, b)][c], l) ==
      if a == c && k == l then b else TestWord(words[c], l)
  {
    if a == c { BitWritten(words[a], k, b, l); }
  }

  lemma SplitIndex(i: nat, j: nat)
    ensures i == j <==> i / BITS_PER_WORD == j / BITS_PER_WORD && i % BITS_PER_WORD == j % BITS_PER_WORD
  {
  }

  // ---- the allocator as the source keeps it

  class PhysMemory {
    var ram: Ram
    const bitmap: array<bv64>
    var total: nat
    var free: nat
    var next: nat
    ghost var used: seq<bool>  // the bitmap, one bit per frame

    ghost predicate Valid()
      reads this, bitmap
    {
      && bitmap.Length == MAX_PHYS_PAGES / BITS_PER_WORD
      && next <= total <= MAX_PHYS_PAGES && |used| == total
      && BitmapIs(bitmap[..], used)
      && free == CountFree(used)
      && forall i :: 0 <= i < next ==> used[i]
    }

    ghost function View(): Mem
      reads this
    {
      Memory(ram, used)
    }

    // pmm_init: `kernelPages` is the kernel image rounded up to pages, and its bits lie in the
    // bitmap. The free count is right exactly when the image fits the memory.
    constructor (ram: Ram, totalKb: nat, kernelPages: nat)
      requires kernelPages <= MAX_PHYS_PAGES
      ensures fresh(bitmap) && this.ram == ram && next == 0
      ensures total == if totalKb / 4 > 65536 then 65536 else totalKb / 4
      ensures |used| == total && forall i :: 0 <= i < total ==> used[i] == (i < kernelPages)
      ensures Valid() <==> kernelPages <= total
    {
      var pages := if totalKb / 4 > MAX_PHYS_PAGES then MAX_PHYS_PAGES else totalKb / 4;
      this.ram := ram;
      total := pages;
      bitmap := new bv64[MAX_PHYS_PAGES / BITS_PER_WORD](_ => 0);
      next := 0;
      free := (pages - kernelPages) % 0x1_0000_0000;
      used := seq(pages, _ => false);
      new;
      ZeroBitmap(bitmap[..], used);
      Reserve(kernelPages);
    }

    // The loop that marks the kernel's own pages; bits past the total are set but not used.
    method Reserve(kernelPages: nat)
      requires bitmap.Length == MAX_PHYS_PAGES / BITS_PER_WORD && kernelPages <= MAX_PHYS_PAGES
      requires total <= MAX_PHYS_PAGES
      requires |used| == total && BitmapIs(bitmap[..], used) && (forall j :: 0 <= j < total ==> !used[j])
      requires CountFree(used) == total
      modifies this`used, bitmap
      ensures |used| == total && BitmapIs(bitmap[..], used)
      ensures CountFree(used) == if kernelPages <= total then total - kernelPages else 0
      ensures forall j :: 0 <= j < total ==> used[j] == (j < kernelPages)
    {
      for i := 0 to kernelPages
        invariant |used| == total && BitmapIs(bitmap[..], used)
        invariant CountFree(used) == if i <= total then total - i else 0
        invariant forall j :: 0 <= j < total ==> used[j] == (j < i)
      {
        if i < total { Mark(i, true); } else { MarkPast(i); }
      }
    }

    // A bit past the total says nothing of any frame.
    method MarkPast(i: nat)
      requires bitmap.Length == MAX_PHYS_PAGES / BITS_PER_WORD && total <= i < MAX_PHYS_PAGES
      requires |used| == total && BitmapIs(bitmap[..], used)
      modifies bitmap
      ensures BitmapIs(bitmap[..], used)
    {
      ghost var words := bitmap[..];
      BitmapPast(words, used, i);
      bitmap[i / BITS_PER_WORD] := WrittenWord(bitmap[i / BITS_PER_WORD], i % BITS_PER_WORD, true);
      assert bitmap[..] == WriteBit(words, i, true);
    }

    // `pmm_bitmap[i / 64] |= bit` and `pmm_bitmap[i / 64] &= ~bit`
    method Mark(i: nat, b: bool)
      requires bitmap.Length == MAX_PHYS_PAGES / BITS_PER_WORD && i < total <= MAX_PHYS_PAGES
      requires |used| == total && BitmapIs(bitmap[..], used)
      modifies this`used, bitmap
      ensures BitmapIs(bitmap[..], used) && used == old(used)[i := b]
      ensures CountFree(used) == CountFree(old(used)) + (if old(used)[i] then 1 else 0) - (if b then 1 else 0)
    {
      BitmapWritten(bitmap[..], used, i, b);
      CountFreeUpdate(used, i, b);
      ghost var words := bitmap[..];
      bitmap[i / BITS_PER_WORD] := WrittenWord(bitmap[i / BITS_PER_WORD], i % BITS_PER_WORD, b);
      used := used[i := b];
      assert bitmap[..] == WriteBit(words, i, b);
    }

    // `pmm_bitmap[i / 64] & bit`
    method Taken(i: nat) returns (b: bool)
      requires |used| == total && BitmapIs(bitmap[..], used) && i < total
      ensures b == used[i]
    {
      assert TestBit(bitmap[..], i) == used[i];
      b := TestWord(bitmap[i / BITS_PER_WORD], i % BITS_PER_WORD);
    }

    // alloc_page: scan from the hint. `None` is the halt of lines 48-49.
    method AllocPage() returns (r: Option<nat>)
      requires Valid()
      modifies this, bitmap
      ensures Valid() && total == old(total)
      ensures r.None? ==> Alloc(old(View())).None? && View() == old(View())
      ensures r.Some? ==> Alloc(old(View())) == Some(Grant(View(), r.value))
    {
      var i := next;
      while i < total
        modifies {}
        invariant next <= i <= total && |used| == total && BitmapIs(bitmap[..], used)
        invariant forall j :: 0 <= j < i ==> used[j]
      {
        var taken := Taken(i);
        if !taken { break; }
        i := i + 1;
      }
      if i == total { return None; }
      LowestFreeIs(used, 0, i);
      Mark(i, true);
      free := free - 1;
      next := i + 1;
      ram := ram[i := ZeroPage()];
      r := Some(i);
    }

    method FreePage(phys: nat)
      requires Valid()
      modifies this, bitmap
      ensures Valid() && total == old(total)
      ensures View() == Release(old(View()), phys)
    {
      var i := phys / 4096 % 0x1_0000_0000;
      if i >= total { return; }
      var taken := Taken(i);
      if taken {
        Mark(i, false);
        free := free + 1;
        if i < next { next := i; }
      } else {
        assert used[i := false] == used;
      }
    }
  }

  lemma ZeroBitmap(words: seq<bv64>, used: seq<bool>)
    requires |used| <= |words| * BITS_PER_WORD && (forall i :: 0 <= i < |used| ==> !used[i])
    requires forall w :: w in words ==> w == 0
    ensures BitmapIs(words, used) && CountFree(used) == |used|
  {
    forall i {:trigger TestBit(words, i)} | 0 <= i < |used|
      ensures !TestBit(words, i)
    {
      assert words[i / BITS_PER_WORD] in words;
    }
    AllClear(used);
  }

  lemma {:induction false} AllClear(used: seq<bool>)
    requires forall i :: 0 <= i < |used| ==> !used[i]
    ensures CountFree(used) == |used|
  {
    if used != [] { AllClear(used[..|used| - 1]); }
  }

  lemma {:induction false} LowestFreeIs(used: seq<bool>, from: nat, f: nat)
    requires from <= f < |used| && !used[f] && forall j :: from <= j < f ==> used[j]
    ensures LowestFree(used, from) == Some(f)
    decreases f - from
  {
    if from < f { LowestFreeIs(used, from + 1, f); }
  }
}
