/** The same page as 512 words and as 4096 bytes.

The table code reads and writes words, kmemcpy writes bytes; both go to the same frames. A
word is stored little-endian. */
module PageContents {
  import opened Pgtable

  // Byte k of a stored word; the processor is little-endian.
  function ByteAt(b: bv64, k: nat): bv8
    requires k < 8
  {
    match k
    case 0 => (b & 0xFF) as bv8
    case 1 => ((b >> 8) & 0xFF) as bv8
    case 2 => ((b >> 16) & 0xFF) as bv8
    case 3 => ((b >> 24) & 0xFF) as bv8
    case 4 => ((b >> 32) & 0xFF) as bv8
    case 5 => ((b >> 40) & 0xFF) as bv8
    case 6 => ((b >> 48) & 0xFF) as bv8
    case _ => ((b >> 56) & 0xFF) as bv8
  }

  function Little(s: seq<bv8>): bv64
    requires |s| == 8
  {
    (s[0] as bv64) | (s[1] as bv64 << 8) | (s[2] as bv64 << 16) | (s[3] as bv64 << 24)
    | (s[4] as bv64 << 32) | (s[5] as bv64 << 40) | (s[6] as bv64 << 48) | (s[7] as bv64 << 56)
  }

  function WordOf(s: seq<bv8>): Word
    requires |s| == 8
  {
    Decode(Split(Little(s)))
  }

  lemma LittleBytes(s: seq<bv8>, b: bv64)
    requires |s| == 8 && b == Little(s)
    ensures (b & 0xFF) as bv8 == s[0] && ((b >> 8) & 0xFF) as bv8 == s[1]
    ensures ((b >> 16) & 0xFF) as bv8 == s[2] && ((b >> 24) & 0xFF) as bv8 == s[3]
    ensures ((b >> 32) & 0xFF) as bv8 == s[4] && ((b >> 40) & 0xFF) as bv8 == s[5]
    ensures ((b >> 48) & 0xFF) as bv8 == s[6] && ((b >> 56) & 0xFF) as bv8 == s[7]
  {
  }

  lemma JoinWordOf(s: seq<bv8>)
    requires |s| == 8
    ensures Join(Encode(WordOf(s))) == Little(s)
  {
    EncodeDecode(Split(Little(s)), ZERO);
    SplitJoin(Little(s), Split(Little(s)));
  }

  lemma ByteAtLittle(s: seq<bv8>, b: bv64, k: nat)
    requires |s| == 8 && b == Little(s) && k < 8
    ensures ByteAt(b, k) == s[k]
  {
    match k
    case 0 => LittleBytes(s, b);
    case 1 => LittleBytes(s, b);
    case 2 => LittleBytes(s, b);
    case 3 => LittleBytes(s, b);
    case 4 => LittleBytes(s, b);
    case 5 => LittleBytes(s, b);
    case 6 => LittleBytes(s, b);
    case _ => LittleBytes(s, b);
  }

  function Stored(w: Word): bv64 { Join(Encode(w)) }

  function ByteOf(w: Word, k: nat): bv8
    requires k < 8
  {
    ByteAt(Stored(w), k)
  }

  lemma BytesOfWord(s: seq<bv8>, k: nat)
    requires |s| == 8 && k < 8
    ensures ByteOf(WordOf(s), k) == s[k]
  {
    ByteOfStored(WordOf(s), Little(s), s, k) by { JoinWordOf(s); }
  }

  lemma ByteOfStored(w: Word, b: bv64, s: seq<bv8>, k: nat)
    requires |s| == 8 && k < 8 && Stored(w) == b == Little(s)
    ensures ByteOf(w, k) == s[k]
  {
    ByteAtLittle(s, b, k);
  }

  function PageBytes(page: Page): (s: seq<bv8>)
    ensures |s| == 4096
  {
    seq(4096, o requires 0 <= o < 4096 => ByteOf(page[o / 8], o % 8))
  }

  function BytesPage(s: seq<bv8>): Page
    requires |s| == 4096
  {
    seq(512, i requires 0 <= i < 512 => WordOf(s[8 * i..8 * i + 8]))
  }

  // A page stores exactly the bytes written to it.
  lemma BytesRoundTrip(s: seq<bv8>)
    requires |s| == 4096
    ensures PageBytes(BytesPage(s)) == s
  {
    forall o | 0 <= o < 4096
      ensures PageBytes(BytesPage(s))[o] == s[o]
    {
      ByteBack(s, o);
    }
  }

  lemma ByteBack(s: seq<bv8>, o: nat)
    requires |s| == 4096 && o < 4096
    ensures PageBytes(BytesPage(s))[o] == s[o]
  {
    var i := o / 8;
    var word := s[8 * i..8 * i + 8];
    BytesOfWord(word, o % 8);
    assert BytesPage(s)[i] == WordOf(word);
  }

  lemma ZeroPageBytes(o: nat)
    requires o < 4096
    ensures PageBytes(ZeroPage())[o] == 0
  {
    ZeroWord(o % 8);
  }

  lemma ZeroWord(k: nat)
    requires k < 8
    ensures ByteOf(ZERO, k) == 0
  {
    ZeroStored();
  }

  lemma ZeroStored()
    ensures Stored(ZERO) == 0
  {
    ZeroFrame();
    assert FlagBits(NO_FLAGS) == 0;
  }

  // kmemcpy to the start of a page.
  function CopyIn(page: Page, src: seq<bv8>): Page
    requires |src| <= 4096
  {
    BytesPage(src + PageBytes(page)[|src|..])
  }

  lemma CopyInBytes(src: seq<bv8>)
    requires |src| <= 4096
    ensures forall o :: 0 <= o < 4096 ==> PageBytes(CopyIn(ZeroPage(), src))[o] == if o < |src| then src[o] else 0
  {
    var s := src + PageBytes(ZeroPage())[|src|..];
    BytesRoundTrip(s);
    forall o | 0 <= o < 4096
      ensures s[o] == if o < |src| then src[o] else 0
    {
      ZeroPageBytes(o);
    }
  }

  lemma CopyInByte(src: seq<bv8>, o: nat, b: bv8)
    requires |src| <= 4096 && o < 4096 && b == if o < |src| then src[o] else 0
    ensures PageBytes(CopyIn(ZeroPage(), src))[o] == b
  {
    CopyInBytes(src);
  }
}
