/** The address space as bytes, and the two 32-bit tag words the heap keeps in it. */
module ByteMemory {

  const SPACE := 0x1_0000_0000
  const FIELD := 0x40_0000  // a size field is 22 bits wide
  const MAGIC := 0x1FF

  type Byte = b: int | 0 <= b < 256

  type Memory = m: seq<Byte> | |m| == SPACE ghost witness seq(SPACE, _ => 0)

  /** Low bits first: 9 bits of magic, 1 hole bit, 22 bits of size. */
  datatype Header = Header(magic: int, isHole: bool, size: int)

  /** Low bits first: 9 bits of magic, 22 bits of size, 1 padding bit that nobody assigns. */
  datatype Footer = Footer(magic: int, size: int, padding: bool)

  ghost predicate SameOutside(m: Memory, m': Memory, lo: int, hi: int) {
    forall i :: 0 <= i < SPACE && !(lo <= i < hi) ==> m'[i] == m[i]
  }

  /** A little-endian word at any byte address. */
  function Word(m: Memory, a: int): (w: int)
    requires 0 <= a <= SPACE - 4
    ensures 0 <= w < SPACE
  {
    m[a] as int + 0x100 * (m[a + 1] as int) + 0x1_0000 * (m[a + 2] as int) + 0x100_0000 * (m[a + 3] as int)
  }

  lemma WordOfBytes(w: int)
    requires 0 <= w < SPACE
    ensures w == w % 0x100 + 0x100 * (w / 0x100 % 0x100) + 0x1_0000 * (w / 0x1_0000 % 0x100) + 0x100_0000 * (w / 0x100_0000)
    ensures w / 0x100_0000 < 0x100
  {
    var v := w / 0x100;
    var u := v / 0x100;
    assert w / 0x1_0000 == u && w / 0x100_0000 == u / 0x100;
  }

  method PutWord(m: Memory, a: int, w: int) returns (m': Memory)
    requires 0 <= a <= SPACE - 4 && 0 <= w < SPACE
    ensures Word(m', a) == w
    ensures m'[a] == w % 0x100 && m'[a + 1] == w / 0x100 % 0x100
    ensures m'[a + 2] == w / 0x1_0000 % 0x100 && m'[a + 3] == w / 0x100_0000
    ensures SameOutside(m, m', a, a + 4)
  {
    WordOfBytes(w);
    var b0, b1, b2, b3 := w % 0x100, w / 0x100 % 0x100, w / 0x1_0000 % 0x100, w / 0x100_0000;
    m' := m[a := b0][a + 1 := b1][a + 2 := b2][a + 3 := b3];
  }

  function EncodeHeader(h: Header): int {
    h.magic % 0x200 + (if h.isHole then 0x200 else 0) + 0x400 * (h.size % 0x40_0000)
  }

  function DecodeHeader(w: int): Header {
    Header(w % 0x200, w / 0x200 % 2 == 1, w / 0x400)
  }

  function EncodeFooter(f: Footer): int {
    f.magic % 0x200 + 0x200 * (f.size % 0x40_0000) + (if f.padding then 0x8000_0000 else 0)
  }

  function DecodeFooter(w: int): Footer {
    Footer(w % 0x200, w / 0x200 % 0x40_0000, w / 0x8000_0000 == 1)
  }

  /** The bit fields come back, cut to their widths. */
  lemma FieldsRoundTrip(h: Header, f: Footer)
    ensures DecodeHeader(EncodeHeader(h)) == Header(h.magic % 0x200, h.isHole, h.size % 0x40_0000)
    ensures DecodeFooter(EncodeFooter(f)) == Footer(f.magic % 0x200, f.size % 0x40_0000, f.padding)
  {
  }

  function HeaderAt(m: Memory, a: int): Header
    requires 0 <= a <= SPACE - 4
  {
    DecodeHeader(Word(m, a))
  }

  function FooterAt(m: Memory, a: int): Footer
    requires 0 <= a <= SPACE - 4
  {
    DecodeFooter(Word(m, a))
  }

  lemma SizesFit(m: Memory, a: int)
    requires 0 <= a <= SPACE - 4
    ensures 0 <= HeaderAt(m, a).size < FIELD && 0 <= FooterAt(m, a).size < FIELD
  {
  }

  method PutHeader(m: Memory, a: int, h: Header) returns (m': Memory)
    requires 0 <= a <= SPACE - 4
    ensures Word(m', a) == EncodeHeader(h)
    ensures SameOutside(m, m', a, a + 4)
  {
    m' := PutWord(m, a, EncodeHeader(h));
  }

  method PutFooter(m: Memory, a: int, f: Footer) returns (m': Memory)
    requires 0 <= a <= SPACE - 4
    ensures Word(m', a) == EncodeFooter(f)
    ensures SameOutside(m, m', a, a + 4)
  {
    m' := PutWord(m, a, EncodeFooter(f));
  }

  predicate HeaderTag(m: Memory, a: int, size: int, hole: bool) {
    && 0 <= a <= SPACE - 4 && 0 <= size < FIELD
    && Word(m, a) == MAGIC + (if hole then 0x200 else 0) + 0x400 * size
  }

  predicate FooterTag(m: Memory, a: int, size: int) {
    && 0 <= a <= SPACE - 4 && 0 <= size < FIELD
    && (Word(m, a) == MAGIC + 0x200 * size || Word(m, a) == MAGIC + 0x200 * size + 0x8000_0000)
  }

  /** The two tags VerifyHeader expects of a block. */
  predicate Tagged(m: Memory, a: int, size: int, hole: bool) {
    HeaderTag(m, a, size, hole) && FooterTag(m, a + size - 4, size)
  }

  lemma TagWords(size: int, hole: bool, padding: bool)
    requires 0 <= size < FIELD
    ensures EncodeHeader(Header(MAGIC, hole, size)) == MAGIC + (if hole then 0x200 else 0) + 0x400 * size
    ensures EncodeFooter(Footer(MAGIC, size, padding)) == MAGIC + 0x200 * size + (if padding then 0x8000_0000 else 0)
  {
  }

  lemma HeaderBits(w: int, q: int, b: int, r: int)
    requires w == 0x400 * q + 0x200 * b + r && 0 <= b < 2 && 0 <= r < 0x200
    ensures w / 0x400 == q && w / 0x200 % 2 == b && w % 0x200 == r
  {
    assert w / 0x200 == 2 * q + b;
  }

  lemma HeaderSplits(w: int)
    ensures w == 0x400 * (w / 0x400) + 0x200 * (w / 0x200 % 2) + w % 0x200
  {
    var v := w / 0x200;
    assert w == 0x200 * v + w % 0x200 && v == 2 * (v / 2) + v % 2;
    HeaderBits(w, v / 2, v % 2, w % 0x200);
  }

  lemma HeaderWord(w: int, size: int, hole: bool)
    requires 0 <= w < SPACE
    ensures 0 <= size < FIELD && w == MAGIC + (if hole then 0x200 else 0) + 0x400 * size
            <==> DecodeHeader(w) == Header(MAGIC, hole, size)
  {
    HeaderSplits(w);
    if w == MAGIC + (if hole then 0x200 else 0) + 0x400 * size {
      HeaderBits(w, size, if hole then 1 else 0, MAGIC);
    }
  }

  lemma FooterWord(w: int, size: int)
    requires 0 <= w < SPACE
    ensures 0 <= size < FIELD && (w == MAGIC + 0x200 * size || w == MAGIC + 0x200 * size + 0x8000_0000)
            <==> DecodeFooter(w).magic == MAGIC && DecodeFooter(w).size == size
  {
    var q, r := w / 0x200, w % 0x200;
    assert w == 0x200 * q + r && q == 0x40_0000 * (q / 0x40_0000) + q % 0x40_0000;
    assert q / 0x40_0000 == 0 || q / 0x40_0000 == 1;
  }

  lemma HeaderTagReads(m: Memory, a: int, size: int, hole: bool)
    requires 0 <= a <= SPACE - 4
    ensures HeaderTag(m, a, size, hole) <==> HeaderAt(m, a) == Header(MAGIC, hole, size)
  {
    hide Word, DecodeHeader;
    HeaderWord(Word(m, a), size, hole);
  }

  lemma FooterTagReads(m: Memory, a: int, size: int)
    requires 0 <= a <= SPACE - 4
    ensures FooterTag(m, a, size) <==> FooterAt(m, a).magic == MAGIC && FooterAt(m, a).size == size
  {
    hide Word, DecodeFooter;
    FooterWord(Word(m, a), size);
  }

  lemma HeaderTagUnique(m: Memory, a: int, size: int, hole: bool, size': int, hole': bool)
    requires HeaderTag(m, a, size, hole) && HeaderTag(m, a, size', hole')
    ensures size == size' && hole == hole'
  {
  }

  lemma WordFrame(m: Memory, m': Memory, lo: int, hi: int, a: int)
    requires SameOutside(m, m', lo, hi) && 0 <= a <= SPACE - 4
    requires a + 4 <= lo || hi <= a
    ensures Word(m', a) == Word(m, a)
  {
  }

  lemma TaggedFrame(m: Memory, m': Memory, lo: int, hi: int, a: int, size: int, hole: bool)
    requires SameOutside(m, m', lo, hi) && Tagged(m, a, size, hole)
    requires 4 <= size && (a + size <= lo || hi <= a)
    ensures Tagged(m', a, size, hole)
  {
    WordFrame(m, m', lo, hi, a);
    WordFrame(m, m', lo, hi, a + size - 4);
  }

  lemma HeaderBytes(m: Memory, a: int, size: int, hole: bool)
    requires HeaderTag(m, a, size, hole) && size < 8
    ensures m[a] == 0xFF && m[a + 1] as int == 1 + (if hole then 2 else 0) + 4 * size && m[a + 2] == 0 && m[a + 3] == 0
  {
  }

  lemma FooterBytes(m: Memory, a: int, size: int)
    requires FooterTag(m, a, size) && size < 8
    ensures m[a] == 0xFF && m[a + 1] as int == 1 + 2 * size && m[a + 2] == 0 && (m[a + 3] == 0 || m[a + 3] == 0x80)
  {
  }

  /** In no memory at all do the two tags of a block overlap: whatever reads back as a
      tagged block has room for both words. */
  lemma TagsNeverOverlap(m: Memory, a: int, size: int, hole: bool)
    requires Tagged(m, a, size, hole) && 0 < size
    ensures 8 <= size
  {
    if size < 8 {
      HeaderBytes(m, a, size, hole);
      FooterBytes(m, a + size - 4, size);
    }
  }
}
