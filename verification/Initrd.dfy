/** The initial ram disk as a file system: its nodes, looking them up, and reading them. */
module Initrd {
  import opened Wrappers
  import opened ByteMemory
  import opened InitrdImage

  const FLAG_FILE := 1
  const FLAG_DIRECTORY := 2

  const DEV: Bytes := [100, 101, 118]  // "dev"
  const ROOT: Bytes := [105, 110, 105, 116, 114, 100]  // "initrd"

  // Strings.

  /** The string that starts at an address: what comes before the next zero. */
  function StringAt(m: Memory, a: nat): Bytes
    decreases SPACE - a
  {
    if SPACE <= a || m[a] == 0 then [] else [m[a]] + StringAt(m, a + 1)
  }

  /** A string is at an address exactly when its bytes are, none of them zero, and then a zero. */
  lemma {:induction false} StringIs(m: Memory, a: nat, s: Bytes)
    requires a + |s| < SPACE
    ensures StringAt(m, a) == s <==> m[a..a + |s|] == s && m[a + |s|] == 0 && 0 !in s
    decreases |s|
  {
    if s == [] {
      assert m[a..a] == [];
    } else {
      StringIs(m, a + 1, s[1..]);
      assert s == [s[0]] + s[1..];
      assert m[a..a + |s|] == [m[a]] + m[a + 1..a + 1 + |s[1..]|];
      assert 0 in s <==> s[0] == 0 || 0 in s[1..];
      if StringAt(m, a) == s {
        assert StringAt(m, a)[1..] == s[1..];
      }
    }
  }

  method Copy(m: Memory, source: nat) returns (dest: Bytes)
    ensures dest == StringAt(m, source)
  {
    dest := [];
    var a := source;
    while a < SPACE && m[a] != 0
      invariant source <= a && (a <= SPACE || a == source) && dest + StringAt(m, a) == StringAt(m, source)
      decreases SPACE - a
    {
      assert dest + ([m[a]] + StringAt(m, a + 1)) == dest + [m[a]] + StringAt(m, a + 1);
      dest := dest + [m[a]];
      a := a + 1;
    }
    assert dest + [] == dest;
  }

  method Compare(a: Bytes, b: Bytes) returns (same: bool)
    ensures same <==> a == b
  {
    var i := 0;
    while i < |a| && i < |b|
      invariant i <= |a| && i <= |b| && a[..i] == b[..i]
    {
      if a[i] != b[i] {
        return false;
      }
      i := i + 1;
    }
    assert i == |a| && i == |b| ==> a == a[..i] && b == b[..i];
    same := i == |a| && i == |b|;
  }

  // Where the fields of a file's header are, for an image at some location.

  function SizeAt(location: nat, i: nat): nat { location + HEADER_SIZE + FILE_HEADER_SIZE * i }

  function OffsetAt(location: nat, i: nat): nat { SizeAt(location, i) + 4 }

  function NameAt(location: nat, i: nat): nat { SizeAt(location, i) + 8 }

  /** The first k file headers have absolute offsets instead of relative ones; nothing else changed. */
  ghost predicate Relocated(m: Memory, m': Memory, location: nat, base: nat, k: nat)
    requires SizeAt(location, k) <= SPACE
  {
    && (forall i :: 0 <= i < k ==> Word(m', OffsetAt(location, i)) == (Word(m, OffsetAt(location, i)) + base) % SPACE)
    && (forall a :: 0 <= a < SPACE && (forall i :: 0 <= i < k ==> !(OffsetAt(location, i) <= a < OffsetAt(location, i) + 4)) ==>
          m'[a] == m[a])
  }

  lemma RelocatedNone(m: Memory, location: nat, base: nat)
    requires SizeAt(location, 0) <= SPACE
    ensures Relocated(m, m, location, base, 0)
  {
  }

  lemma Untouched(m: Memory, m': Memory, location: nat, base: nat, k: nat, a: nat)
    requires SizeAt(location, k) <= SPACE && Relocated(m, m', location, base, k) && a + 4 <= SPACE
    requires forall i :: 0 <= i < k ==> a + 4 <= OffsetAt(location, i) || OffsetAt(location, i) + 4 <= a
    ensures Word(m', a) == Word(m, a)
  {
    assert m'[a] == m[a] && m'[a + 1] == m[a + 1] && m'[a + 2] == m[a + 2] && m'[a + 3] == m[a + 3];
  }

  lemma RelocatedNext(m: Memory, m1: Memory, m2: Memory, location: nat, base: nat, k: nat)
    requires SizeAt(location, k + 1) <= SPACE && Relocated(m, m1, location, base, k)
    requires SameOutside(m1, m2, OffsetAt(location, k), OffsetAt(location, k) + 4)
    requires Word(m2, OffsetAt(location, k)) == (Word(m1, OffsetAt(location, k)) + base) % SPACE
    ensures Relocated(m, m2, location, base, k + 1) && Word(m2, SizeAt(location, k)) == Word(m, SizeAt(location, k))
  {
    hide Word;
    Untouched(m, m1, location, base, k, OffsetAt(location, k));
    forall i | 0 <= i < k ensures Word(m2, OffsetAt(location, i)) == Word(m1, OffsetAt(location, i)) {
      SameWord(m1, m2, OffsetAt(location, k), OffsetAt(location, i));
    }
    SameWord(m1, m2, OffsetAt(location, k), SizeAt(location, k));
    Untouched(m, m1, location, base, k, SizeAt(location, k));
  }

  lemma SameWord(m: Memory, m': Memory, lo: nat, a: nat)
    requires SameOutside(m, m', lo, lo + 4) && a + 4 <= SPACE && (a + 4 <= lo || lo + 4 <= a)
    ensures Word(m', a) == Word(m, a)
  {
  }

  class Node {
    var name: Bytes
    var flags: nat
    var inode: nat
    var length: nat
    var readable: bool   // has a function to read it
    var listable: bool   // has functions to list and search it

    constructor (name: Bytes, flags: nat)
      ensures this.name == name && this.flags == flags && inode == 0 && length == 0 && !readable && !listable
    {
      this.name := name;
      this.flags := flags;
      inode, length, readable, listable := 0, 0, false, false;
    }

    predicate IsDirectory()
      reads this
    {
      flags / 2 % 2 == 1
    }
  }

  /** `n` bytes from an address on; addresses wrap round. */
  function BytesFrom(m: Memory, a: nat, n: nat): (b: Bytes)
    ensures |b| == n
  {
    seq(n, k requires 0 <= k < n => m[(a + k) % SPACE])
  }

  /** How many bytes a read yields: up to the end of the file; but an end past the last 32-bit number
      is not noticed. */
  function ReadSize(length: nat, offset: nat, size: nat): nat {
    if offset > length then 0
    else if (offset + size) % SPACE > length then length - offset
    else size
  }

  /** The end of the file is respected exactly when the end of the read is a 32-bit number, or the
      start is already past it. */
  lemma ReadClips(length: nat, offset: nat, size: nat)
    requires length < SPACE && offset < SPACE && size < SPACE
    ensures offset > length || offset + size < SPACE
            <==> ReadSize(length, offset, size) == if offset + size <= length then size else if offset <= length then length - offset else 0
  {
  }

  /** Every file has reads that go past its end: from any offset after the first byte there is a size
      with which the sum wraps round to nothing, so that all of it is read. */
  lemma WrappedRead(length: nat, offset: nat)
    requires 0 < offset <= length < SPACE
    ensures SPACE - offset < SPACE && offset + (SPACE - offset) > length
    ensures ReadSize(length, offset, SPACE - offset) == SPACE - offset > length - offset
  {
    assert (offset + (SPACE - offset)) % SPACE == 0;
  }

  /** The name that a file's node gets: the string in its header, when the headers up to its own have
      been changed. */
  ghost predicate Named(name: Bytes, m: Memory, location: nat, base: nat, i: nat)
    requires SizeAt(location, i + 1) <= SPACE
  {
    exists m1: Memory :: Relocated(m, m1, location, base, i + 1) && name == StringAt(m1, NameAt(location, i))
  }

  /** The node of a file whose header is the i-th. */
  ghost predicate NodeOf(node: Node, m: Memory, location: nat, base: nat, i: nat)
    requires SizeAt(location, i + 1) <= SPACE
    reads node
  {
    && node.flags == FLAG_FILE && node.readable && node.inode == i
    && node.length == Word(m, SizeAt(location, i)) && Named(node.name, m, location, base, i)
  }

  // What comes back from an image that the tool wrote.

  ghost predicate Loaded(m: Memory, location: nat, image: Bytes) {
    location + |image| <= SPACE && m[location..location + |image|] == image
  }

  lemma Part(m: Memory, location: nat, image: Bytes, lo: nat, hi: nat)
    requires Loaded(m, location, image) && lo <= hi <= |image|
    ensures m[location + lo..location + hi] == image[lo..hi]
  {
    forall k | lo <= k < hi ensures m[location + k] == image[k] {
      assert m[location..location + |image|][k] == m[location + k];
    }
  }

  lemma LoadedWord(m: Memory, location: nat, image: Bytes, at: nat, n: nat)
    requires Loaded(m, location, image) && at + 4 <= |image| && image[at..at + 4] == Le32(n) && n < SPACE
    ensures Word(m, location + at) == n
  {
    Part(m, location, image, at, at + 4);
    WordOfBytes(n);
    var b := m[location + at..location + at + 4];
    assert b[0] == m[location + at] && b[1] == m[location + at + 1] && b[2] == m[location + at + 2] && b[3] == m[location + at + 3];
  }

  lemma Sub(s: Bytes, lo: nat, hi: nat, a: nat, b: nat)
    requires lo + a <= lo + b <= hi <= |s|
    ensures s[lo..hi][a..b] == s[lo + a..lo + b]
  {
    var t := s[lo..hi];
    assert forall k :: a <= k < b ==> t[k] == s[lo + k];
  }

  lemma HeaderParts(image: Bytes, h: nat, f: File, offset: nat)
    requires h + FILE_HEADER_SIZE <= |image| && image[h..h + FILE_HEADER_SIZE] == FileHeader(f, offset)
    ensures image[h..h + 4] == Le32(|f.content|) && image[h + 4..h + 8] == Le32(offset)
    ensures image[h + 8..h + FILE_HEADER_SIZE] == NameField(f.name)
  {
    hide Le32, NameField;
    var field := image[h..h + FILE_HEADER_SIZE];
    Sub(image, h, h + FILE_HEADER_SIZE, 0, 4);
    Sub(image, h, h + FILE_HEADER_SIZE, 4, 8);
    Sub(image, h, h + FILE_HEADER_SIZE, 8, FILE_HEADER_SIZE);
    assert field[..4] == field[0..4] && field[0..4] == Le32(|f.content|) && field[4..8] == Le32(offset);
    assert field[8..FILE_HEADER_SIZE] == NameField(f.name);
  }

  /** Four bytes as a number, the low one first. */
  ghost function Number(b: Bytes, at: nat): nat
    requires at + 4 <= |b|
  {
    b[at] as nat + 0x100 * (b[at + 1] as nat) + 0x1_0000 * (b[at + 2] as nat) + 0x100_0000 * (b[at + 3] as nat)
  }

  lemma NumberRead(b: Bytes, at: nat, n: nat)
    requires at + 4 <= |b| && b[at..at + 4] == Le32(n) && n < SPACE
    ensures Number(b, at) == n
  {
    WordOfBytes(n);
    var s := b[at..at + 4];
    assert b[at] == s[0] && b[at + 1] == s[1] && b[at + 2] == s[2] && b[at + 3] == s[3];
  }

  /** A field of 64 bytes with a name at its beginning, cut off or padded with zeros. */
  ghost predicate Padded(field: Bytes, name: Bytes) {
    |field| == 64 && forall k :: 0 <= k < 64 ==> field[k] == if k < |name| then name[k] else 0
  }

  lemma FieldsOf(b: Bytes, h: nat, f: File, offset: nat)
    requires h + 72 <= |b| && b[h..h + 72] == FileHeader(f, offset) && |f.content| < SPACE && offset < SPACE
    ensures Number(b, h) == |f.content| && Number(b, h + 4) == offset
    ensures Padded(b[h + 8..h + 72], f.name)
  {
    HeaderParts(b, h, f, offset);
    hide Le32, Number, FileHeader;
    NumberRead(b, h, |f.content|);
    NumberRead(b, h + 4, offset);
  }

  /** The format, byte by byte: two numbers; then for every file two numbers and 64 bytes of name; then the
      contents, one after another, each at the offset that is given for it. */
  lemma ImageLayout(files: seq<File>, i: nat, h: nat, start: nat)
    requires i < |files| && |Image(files)| < SPACE && h == 8 + 72 * i && start == |Contents(files[..i])|
    ensures var b, contents := Image(files), 8 + 72 * |files|;
      && Number(b, 0) == |files| && Number(b, 4) == contents
      && h + 72 <= contents <= contents + start + |files[i].content| <= |b|
      && Number(b, h) == |files[i].content| && Number(b, h + 4) == start
      && Padded(b[h + 8..h + 72], files[i].name)
      && b[contents + start..contents + start + |files[i].content|] == files[i].content
  {
    hide Number, Le32, FileHeader;
    InImage(files, i);
    var b := Image(files);
    hide Image, Contents;
    assert b[0..4] == b[..4];
    NumberRead(b, 0, |files|);
    NumberRead(b, 4, 8 + 72 * |files|);
    FieldsOf(b, h, files[i], start);
  }

  /** The fields of a loaded image's headers. */
  lemma LoadedFields(m: Memory, location: nat, files: seq<File>, i: nat)
    requires Loaded(m, location, Image(files)) && i < |files|
    ensures NameAt(location, i) + NAME_SIZE <= SPACE && location + HEADER_SIZE <= SPACE
    ensures Word(m, SizeAt(location, i)) == |files[i].content| && Word(m, OffsetAt(location, i)) == |Contents(files[..i])|
    ensures m[NameAt(location, i)..NameAt(location, i) + NAME_SIZE] == NameField(files[i].name)
  {
    hide Image, Le32, Word, NameField, FileHeader, Contents;
    HeaderInImage(files, i);
    ContentInImage(files, i);
    var image, h := Image(files), HEADER_SIZE + FILE_HEADER_SIZE * i;
    HeaderParts(image, h, files[i], |Contents(files[..i])|);
    LoadedWord(m, location, image, h, |files[i].content|);
    LoadedWord(m, location, image, h + 4, |Contents(files[..i])|);
    Part(m, location, image, h + 8, h + FILE_HEADER_SIZE);
  }

  /** The image's own header, and where a file's contents are. */
  lemma LoadedContent(m: Memory, location: nat, files: seq<File>, i: nat)
    requires Loaded(m, location, Image(files)) && i < |files|
    ensures location + HEADER_SIZE <= SPACE
    ensures Word(m, location) == |files| && Word(m, location + 4) == HEADER_SIZE + FILE_HEADER_SIZE * |files|
    ensures location + ContentAt(files, i) + |files[i].content| <= SPACE
    ensures m[location + ContentAt(files, i)..location + ContentAt(files, i) + |files[i].content|] == files[i].content
  {
    hide Image, Word, Le32, Headers, Contents, FileHeader;
    ContentInImage(files, i);
    LoadedHeader(m, location, files);
    Part(m, location, Image(files), ContentAt(files, i), ContentAt(files, i) + |files[i].content|);
  }

  lemma LoadedHeader(m: Memory, location: nat, files: seq<File>)
    requires Loaded(m, location, Image(files))
    ensures location + HEADER_SIZE <= SPACE && SizeAt(location, |files|) <= SPACE && |files| < SPACE
    ensures Word(m, location) == |files| && Word(m, location + 4) == HEADER_SIZE + FILE_HEADER_SIZE * |files|
  {
    hide Word, Contents, Headers, Le32;
    var image := Image(files);
    FrontInImage(files);
    assert image[0..4] == image[..4];
    LoadedWord(m, location, image, 0, |files|);
    LoadedWord(m, location, image, 4, HEADER_SIZE + FILE_HEADER_SIZE * |files|);
  }

  // Names.

  /** What a file's node is called: the file's own name exactly when that is shorter than its field, or
      goes on and ends in the bytes that happen to follow the field. */
  lemma FieldName(m: Memory, a: nat, name: Bytes)
    requires a + NAME_SIZE <= SPACE && a + |name| < SPACE && m[a..a + NAME_SIZE] == NameField(name) && 0 !in name
    ensures StringAt(m, a) == name
            <==> |name| < NAME_SIZE || (m[a + NAME_SIZE..a + |name|] == name[NAME_SIZE..] && m[a + |name|] == 0)
  {
    StringIs(m, a, name);
    hide StringAt;
    var field := m[a..a + NAME_SIZE];
    if |name| < NAME_SIZE {
      assert m[a..a + |name|] == field[..|name|] == name;
      assert m[a + |name|] == field[|name|] == 0;
    } else {
      assert m[a..a + |name|] == field + m[a + NAME_SIZE..a + |name|];
      assert name == name[..NAME_SIZE] + name[NAME_SIZE..];
    }
  }

  lemma NamesUntouched(m: Memory, m1: Memory, location: nat, base: nat, k: nat, i: nat)
    requires SizeAt(location, k) <= SPACE && i < k && Relocated(m, m1, location, base, k)
    ensures m1[NameAt(location, i)..NameAt(location, i) + NAME_SIZE] == m[NameAt(location, i)..NameAt(location, i) + NAME_SIZE]
  {
    hide Word;
    var a := NameAt(location, i);
    forall b | a <= b < a + NAME_SIZE ensures m1[b] == m[b] {
      assert forall j :: 0 <= j < k ==> !(OffsetAt(location, j) <= b < OffsetAt(location, j) + 4);
    }
  }

  /** The node of a file is called what the file is called. */
  lemma LoadedName(m: Memory, location: nat, files: seq<File>, i: nat, name: Bytes)
    requires Loaded(m, location, Image(files)) && i < |files| && SizeAt(location, i + 1) <= SPACE
    requires Named(name, m, location, location + HEADER_SIZE + FILE_HEADER_SIZE * |files|, i)
    requires |files[i].name| < NAME_SIZE && 0 !in files[i].name
    ensures name == files[i].name
  {
    hide Relocated, StringAt, Image, Loaded, NameField, Word;
    LoadedFields(m, location, files, i);
    var base, a := location + HEADER_SIZE + FILE_HEADER_SIZE * |files|, NameAt(location, i);
    var m1: Memory :| Relocated(m, m1, location, base, i + 1) && name == StringAt(m1, a);
    NamesUntouched(m, m1, location, base, i + 1, i);
    FieldName(m1, a, files[i].name);
  }

  const LONG_NAME: Bytes := seq(NAME_SIZE, _ => 97)

  /** A name that fills its field has no zero after it: in an image of one file that is called by 64
      letters and holds one more, the node gets another name than the file's. */
  lemma LongNameLost(m: Memory, location: nat, name: Bytes)
    requires Loaded(m, location, Image([File(LONG_NAME, [98])])) && SizeAt(location, 1) < SPACE
    requires Named(name, m, location, location + HEADER_SIZE + FILE_HEADER_SIZE, 0)
    ensures name != LONG_NAME
  {
    hide Relocated, StringAt, Image, Loaded, NameField, Word;
    var files := [File(LONG_NAME, [98])];
    LoadedFields(m, location, files, 0);
    LoadedContent(m, location, files, 0);
    var base, a := location + HEADER_SIZE + FILE_HEADER_SIZE, NameAt(location, 0);
    var m1: Memory :| Relocated(m, m1, location, base, 1) && name == StringAt(m1, a);
    NamesUntouched(m, m1, location, base, 1, 0);
    FieldName(m1, a, LONG_NAME);
    var end := location + ContentAt(files, 0);
    assert end == a + NAME_SIZE;
    assert m[end] == m[end..end + 1][0] == 98;
    Beyond(m, m1, location, base, end);
  }

  lemma Beyond(m: Memory, m': Memory, location: nat, base: nat, a: nat)
    requires SizeAt(location, 1) <= a < SPACE && Relocated(m, m', location, base, 1)
    ensures m'[a] == m[a]
  {
    hide Word;
  }

  /** A file's bytes, from where its header says they are. */
  ghost predicate HoldsBytes(m: Memory, location: nat, content: Bytes, i: nat) {
    && SizeAt(location, i + 1) <= SPACE && Word(m, SizeAt(location, i)) == |content|
    && BytesFrom(m, Word(m, OffsetAt(location, i)), |content|) == content
  }

  /** Once every offset is absolute, a file's bytes are where its header says. */
  lemma LoadedBytes(m: Memory, m': Memory, location: nat, files: seq<File>, i: nat)
    requires Loaded(m, location, Image(files)) && i < |files| && SizeAt(location, |files|) <= SPACE
    requires Relocated(m, m', location, location + HEADER_SIZE + FILE_HEADER_SIZE * |files|, |files|)
    ensures HoldsBytes(m', location, files[i].content, i)
  {
    hide Word, Loaded, Image, NameField, Contents, BytesFrom, Relocated;
    LoadedFields(m, location, files, i);
    FieldsNow(m, m', location, location + HEADER_SIZE + FILE_HEADER_SIZE * |files|, |files|, i);
    AfterHeaders(m, m', location, location + HEADER_SIZE + FILE_HEADER_SIZE * |files|, |files|);
    var at, content := location + ContentAt(files, i), files[i].content;
    assert BytesFrom(m', at % SPACE, |content|) == content by {
      LoadedContent(m, location, files, i);
      BytesThere(m, m', at, content, SizeAt(location, |files|));
    }
  }

  lemma FieldsNow(m: Memory, m': Memory, location: nat, base: nat, k: nat, i: nat)
    requires SizeAt(location, k) <= SPACE && i < k && Relocated(m, m', location, base, k)
    ensures SizeAt(location, i + 1) <= SPACE && Word(m', SizeAt(location, i)) == Word(m, SizeAt(location, i))
    ensures Word(m', OffsetAt(location, i)) == (Word(m, OffsetAt(location, i)) + base) % SPACE
  {
    hide Word;
    Untouched(m, m', location, base, k, SizeAt(location, i));
  }

  lemma AfterHeaders(m: Memory, m': Memory, location: nat, base: nat, k: nat)
    requires SizeAt(location, k) <= SPACE && Relocated(m, m', location, base, k)
    ensures forall a :: SizeAt(location, k) <= a < SPACE ==> m'[a] == m[a]
  {
    hide Word;
  }

  lemma BytesThere(m: Memory, m': Memory, at: nat, content: Bytes, from: nat)
    requires from <= at && at + |content| <= SPACE && m[at..at + |content|] == content
    requires forall a :: from <= a < SPACE ==> m'[a] == m[a]
    ensures BytesFrom(m', at % SPACE, |content|) == content
  {
    if content != [] {
      BytesInRange(m', at, |content|);
      assert m'[at..at + |content|] == m[at..at + |content|];
    }
  }

  lemma BytesInRange(m: Memory, a: nat, n: nat)
    requires 0 < n && a + n <= SPACE
    ensures a % SPACE == a && BytesFrom(m, a, n) == m[a..a + n]
  {
    var b := BytesFrom(m, a, n);
    forall k | 0 <= k < n ensures b[k] == m[a..a + n][k] {
      assert (a + k) % SPACE == a + k;
    }
  }

  lemma SomeBytes(m: Memory, a: nat, length: nat, offset: nat, n: nat)
    requires offset + n <= length
    ensures BytesFrom(m, a + offset, n) == BytesFrom(m, a, length)[offset..offset + n]
  {
  }

  class Ramdisk {
    var mem: Memory
    const location: nat
    const root: Node
    const dev: Node
    var nodes: seq<Node>
    var numNodes: nat
    var currName: Bytes
    var currInode: nat

    ghost predicate Valid()
      reads this, root, dev, nodes
    {
      && SizeAt(location, numNodes) <= SPACE && |nodes| == numNodes
      && root !in nodes && dev !in nodes && root != dev
      && root.flags == FLAG_DIRECTORY && root.listable && dev.flags == FLAG_DIRECTORY && dev.listable
      && forall i :: 0 <= i < numNodes ==> nodes[i].flags == FLAG_FILE && nodes[i].readable && nodes[i].inode == i
    }

    /** Makes the nodes of an image that is in memory, and its files' offsets absolute. */
    constructor (m: Memory, location: nat)
      requires location + HEADER_SIZE <= SPACE && SizeAt(location, Word(m, location)) <= SPACE
      ensures Valid() && fresh(root) && fresh(dev) && (forall i :: 0 <= i < |nodes| ==> fresh(nodes[i]))
      ensures this.location == location && numNodes == Word(m, location)
      ensures root.name == [105, 110, 105, 116, 114, 100] && dev.name == [100, 101, 118]  // "initrd", "dev"
      ensures Relocated(m, mem, location, location + Word(m, location + 4), numNodes)
      ensures forall i :: 0 <= i < numNodes ==> NodeOf(nodes[i], m, location, location + Word(m, location + 4), i)
    {
      hide Relocated, StringAt, Word, Named;
      root := new Node(ROOT, FLAG_DIRECTORY);
      dev := new Node(DEV, FLAG_DIRECTORY);
      mem := m;
      this.location := location;
      numNodes := Word(m, location);
      nodes := [];
      currName, currInode := [], 0;
      new;
      root.listable := true;
      dev.listable := true;
      RelocatedNone(m, location, location + Word(mem, location + 4));
      AddNodes(m, Word(mem, location + 4));
    }

    /** The nodes of all files. */
    method AddNodes(ghost m: Memory, contentOffset: nat)
      requires SizeAt(location, numNodes) <= SPACE && nodes == [] && Relocated(m, mem, location, location + contentOffset, 0)
      modifies `mem, `nodes
      ensures Relocated(m, mem, location, location + contentOffset, numNodes) && |nodes| == numNodes
      ensures forall i :: 0 <= i < numNodes ==> fresh(nodes[i]) && NodeOf(nodes[i], m, location, location + contentOffset, i)
    {
      hide Relocated, StringAt, Word, Named;
      for i := 0 to numNodes
        invariant |nodes| == i && Relocated(m, mem, location, location + contentOffset, i)
        invariant forall j :: 0 <= j < i ==> fresh(nodes[j]) && NodeOf(nodes[j], m, location, location + contentOffset, j)
      {
        ghost var was := nodes;
        AddNode(m, contentOffset, i);
        assert forall j :: 0 <= j < i ==> nodes[j] == was[j];
      }
    }

    /** The node of one file. */
    method AddNode(ghost m: Memory, contentOffset: nat, i: nat)
      requires SizeAt(location, i + 1) <= SPACE && Relocated(m, mem, location, location + contentOffset, i)
      modifies `mem, `nodes
      ensures Relocated(m, mem, location, location + contentOffset, i + 1)
      ensures |nodes| == |old(nodes)| + 1 && nodes[..|old(nodes)|] == old(nodes)
      ensures var node := nodes[|old(nodes)|];
        fresh(node) && NodeOf(node, m, location, location + contentOffset, i)
    {
      hide Relocated, StringAt, Word;
      ghost var m1 := mem;
      mem := PutWord(mem, OffsetAt(location, i), (Word(mem, OffsetAt(location, i)) + location + contentOffset) % SPACE);
      RelocatedNext(m, m1, mem, location, location + contentOffset, i);
      var node := new Node([], 0);
      node.name := Copy(mem, NameAt(location, i));
      node.length := Word(mem, SizeAt(location, i));
      node.inode := i;
      node.flags := FLAG_FILE;
      node.readable := true;
      nodes := nodes + [node];
    }

    method Read(node: Node, offset: nat, size: nat) returns (n: nat, buffer: Bytes)
      requires SizeAt(location, node.inode + 1) <= SPACE && offset < SPACE && size < SPACE
      ensures n == ReadSize(Word(mem, SizeAt(location, node.inode)), offset, size)
      ensures buffer == BytesFrom(mem, Word(mem, OffsetAt(location, node.inode)) + offset, n)
    {
      var length := Word(mem, SizeAt(location, node.inode));
      n := size;
      if offset > length {
        return 0, [];
      }
      if (offset + size) % SPACE > length {
        n := length - offset;
      }
      buffer := BytesFrom(mem, Word(mem, OffsetAt(location, node.inode)) + offset, n);
    }

    /** The entry of a directory at an index, in the one entry there is for all callers. */
    method ReadDir(node: Node, index: nat) returns (found: bool)
      requires Valid() && index < SPACE && numNodes < SPACE && node.IsDirectory() && node.listable
      modifies `currName, `currInode
      ensures node == root && index == 0 ==> found && currName == [100, 101, 118] && currInode == 0
      ensures 0 < index <= numNodes ==> found && currName == nodes[index - 1].name && currInode == index - 1
      ensures numNodes < index || (index == 0 && node != root) ==> !found && currName == old(currName) && currInode == old(currInode)
    {
      if node == root && index == 0 {
        currName := DEV;
        currInode := 0;
        return true;
      }
      var i := (index + SPACE - 1) % SPACE;
      if i >= numNodes {
        return false;
      }
      currName := nodes[i].name;
      currInode := nodes[i].inode;
      found := true;
    }

    /** The node of a name: the device directory, or the first file so named. */
    method FindDir(node: Node, name: Bytes) returns (r: Node?)
      requires Valid() && node.IsDirectory() && node.listable
      ensures node == root && name == DEV ==> r == dev
      ensures !(node == root && name == DEV) ==>
                if r == null then forall i :: 0 <= i < numNodes ==> nodes[i].name != name
                else exists i: nat :: FirstNamed(i, name) && r == nodes[i]
    {
      if node == root {
        var isDev := Compare(name, DEV);
        if isDev {
          return dev;
        }
      }
      for i := 0 to numNodes
        invariant forall j :: 0 <= j < i ==> nodes[j].name != name
      {
        var same := Compare(name, nodes[i].name);
        if same {
          assert FirstNamed(i, name);
          return nodes[i];
        }
      }
      r := null;
    }

    /** The first file of a name is the i-th. */
    ghost predicate FirstNamed(i: nat, name: Bytes)
      reads this, nodes
    {
      i < |nodes| && nodes[i].name == name && forall j :: 0 <= j < i ==> nodes[j].name != name
    }

    /** The file of a name: the first so named, and none for the name of the device directory. */
    method Traverse(filename: Bytes) returns (r: Node?)
      requires Valid() && numNodes < SPACE - 1
      modifies `currName, `currInode
      ensures r == null <==> filename == DEV || forall i :: 0 <= i < numNodes ==> nodes[i].name != filename
      ensures r != null ==> exists i: nat :: FirstNamed(i, filename) && r == nodes[i]
    {
      var i := 0;
      var found := ReadDir(root, i);
      while found
        invariant i <= numNodes + 1 && (found <==> i <= numNodes)
        invariant found ==> currName == if i == 0 then DEV else nodes[i - 1].name
        invariant filename != DEV ==> forall j :: 0 <= j < i - 1 ==> nodes[j].name != filename
        decreases numNodes + 1 - i
      {
        var node := FindDir(root, currName);
        assert node.IsDirectory() <==> currName == DEV;
        if node.IsDirectory() {
        } else {
          var same := Compare(currName, filename);
          if same {
            return node;
          }
        }
        i := i + 1;
        found := ReadDir(root, i);
      }
      r := null;
    }

    /** The disk has these files: under their names, with their sizes, and with their contents to read. */
    ghost predicate Holds(files: seq<File>)
      reads this, root, dev, nodes
    {
      && Valid() && numNodes == |files|
      && forall i :: 0 <= i < |files| ==>
           && nodes[i].name == files[i].name && nodes[i].length == |files[i].content|
           && HoldsBytes(mem, location, files[i].content, i)
    }

    /** Every read of a file yields the part of it that was asked for, as far as there is any. */
    method ReadFile(node: Node, offset: nat, size: nat, ghost files: seq<File>, ghost i: nat) returns (n: nat, buffer: Bytes)
      requires Holds(files) && i < |files| && node == nodes[i] && offset + size < SPACE
      ensures var content := files[i].content;
        && buffer == content[Min(offset, |content|)..Min(offset + size, |content|)] && n == |buffer|
    {
      hide BytesFrom, Word;
      assert HoldsBytes(mem, location, files[i].content, i);
      n, buffer := Read(node, offset, size);
      if offset <= |files[i].content| {
        SomeBytes(mem, Word(mem, OffsetAt(location, i)), |files[i].content|, offset, n);
      }
    }

    /** Reads of some size, one after another until one yields nothing, yield the whole file. */
    method ReadAll(node: Node, chunk: nat, ghost files: seq<File>, ghost i: nat) returns (all: Bytes)
      requires Holds(files) && i < |files| && node == nodes[i] && 0 < chunk && |files[i].content| + chunk < SPACE
      ensures all == files[i].content
    {
      hide Holds;
      ghost var content := files[i].content;
      all := [];
      var n, buffer := ReadFile(node, 0, chunk, files, i);
      while n != 0
        invariant |all| <= |content| && all == content[..|all|] && n == |buffer|
        invariant buffer == content[|all|..Min(|all| + chunk, |content|)]
        decreases |content| - |all|
      {
        assert content[..|all|] + buffer == content[..|all| + n];
        all := all + buffer;
        n, buffer := ReadFile(node, |all|, chunk, files, i);
      }
    }

    /** A file's contents by name. */
    method Fetch(name: Bytes, chunk: nat, ghost files: seq<File>) returns (r: Option<Bytes>)
      requires Holds(files) && |files| < SPACE - 1 && 0 < chunk
      requires forall i :: 0 <= i < |files| ==> |files[i].content| + chunk < SPACE && files[i].name != DEV
      requires forall i, j :: 0 <= i < j < |files| ==> files[i].name != files[j].name
      modifies `currName, `currInode
      ensures r == None <==> forall i :: 0 <= i < |files| ==> files[i].name != name
      ensures forall i :: 0 <= i < |files| && files[i].name == name ==> r == Some(files[i].content)
    {
      var node := Traverse(name);
      if node == null {
        assert forall i :: 0 <= i < |files| ==> files[i].name == nodes[i].name;
        return None;
      }
      ghost var i: nat :| FirstNamed(i, name) && node == nodes[i];
      var all := ReadAll(node, chunk, files, i);
      r := Some(all);
    }
  }

  function Min(a: nat, b: nat): nat { if a < b then a else b }

  /** The disk that an image is mounted as holds the files that it was built from. */
  method Mount(m: Memory, location: nat, ghost files: seq<File>) returns (disk: Ramdisk)
    requires Loaded(m, location, Image(files))
    requires forall i :: 0 <= i < |files| ==> |files[i].name| < NAME_SIZE && 0 !in files[i].name
    ensures fresh(disk) && disk.Holds(files)
  {
    hide Image, Loaded, Word, Named, Relocated, BytesFrom, HoldsBytes;
    LoadedHeader(m, location, files);
    disk := new Ramdisk(m, location);
    forall i | 0 <= i < |files|
      ensures disk.nodes[i].name == files[i].name && disk.nodes[i].length == |files[i].content|
      ensures HoldsBytes(disk.mem, location, files[i].content, i)
    {
      assert NodeOf(disk.nodes[i], m, location, location + Word(m, location + 4), i);
      LoadedName(m, location, files, i, disk.nodes[i].name);
      LoadedFields(m, location, files, i);
      LoadedBytes(m, disk.mem, location, files, i);
    }
  }

  /** From the list of files to a file's contents: build, load anywhere in memory, mount, look up, read. */
  method BuildAndFetch(lines: seq<Bytes>, sources: map<Bytes, Bytes>, memory: Memory, location: nat, name: Bytes, chunk: nat)
    returns (r: Option<Bytes>)
    requires FilesOf(lines, sources) != None && 0 < chunk
    requires var files := FilesOf(lines, sources).value;
      && location + |Image(files)| <= SPACE
      && (forall i :: 0 <= i < |files| ==> |files[i].name| < NAME_SIZE && 0 !in files[i].name && files[i].name != DEV)
      && (forall i :: 0 <= i < |files| ==> |files[i].content| + chunk < SPACE)
      && (forall i, j :: 0 <= i < j < |files| ==> files[i].name != files[j].name)
    ensures var files := FilesOf(lines, sources).value;
      && (r == None <==> forall i :: 0 <= i < |files| ==> files[i].name != name)
      && (forall i :: 0 <= i < |files| && files[i].name == name ==> r == Some(files[i].content))
  {
    hide FilesOf, Image;
    ghost var files := FilesOf(lines, sources).value;
    var image := Build(lines, sources);
    var loaded := memory[..location] + image.value + memory[location + |image.value|..];
    assert Loaded(loaded, location, Image(files));
    hide Loaded;
    LoadedHeader(loaded, location, files);
    var disk := Mount(loaded, location, files);
    r := disk.Fetch(name, chunk, files);
  }
}
