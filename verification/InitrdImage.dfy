/** The initial ram disk's image, as the build tool writes it. */
module InitrdImage {
  import opened Wrappers
  import opened ByteMemory

  type Bytes = seq<Byte>

  /** A file of the image: the name it gets there, and its contents. */
  datatype File = File(name: Bytes, content: Bytes)

  const NAME_SIZE := 64
  const HEADER_SIZE := 8        // of the image
  const FILE_HEADER_SIZE := 72  // of each file: size, offset, name
  const SPACE_CHAR: Byte := 32

  /** An unsigned 32-bit number, low byte first. */
  function Le32(n: nat): (b: Bytes)
    ensures |b| == 4
  {
    [n % 0x100, n / 0x100 % 0x100, n / 0x1_0000 % 0x100, n / 0x100_0000 % 0x100]
  }

  /** At most 64 bytes of a name, and zeros after it if it is shorter: nothing ends a longer one. */
  function NameField(name: Bytes): (b: Bytes)
    ensures |b| == NAME_SIZE
  {
    if |name| < NAME_SIZE then name + seq(NAME_SIZE - |name|, _ => 0) else name[..NAME_SIZE]
  }

  function FileHeader(f: File, offset: nat): (b: Bytes)
    ensures |b| == FILE_HEADER_SIZE
  {
    Le32(|f.content|) + Le32(offset) + NameField(f.name)
  }

  function Contents(files: seq<File>): Bytes {
    if files == [] then [] else Contents(files[..|files| - 1]) + files[|files| - 1].content
  }

  function Headers(files: seq<File>): (b: Bytes)
    ensures |b| == FILE_HEADER_SIZE * |files|
  {
    if files == [] then []
    else
      var before := files[..|files| - 1];
      Headers(before) + FileHeader(files[|files| - 1], |Contents(before)|)
  }

  /** What comes before the headers. */
  function Front(files: seq<File>): (b: Bytes)
    ensures |b| == HEADER_SIZE
  {
    Le32(|files|) + Le32(HEADER_SIZE + FILE_HEADER_SIZE * |files|)
  }

  function Image(files: seq<File>): (b: Bytes)
    ensures |b| == HEADER_SIZE + FILE_HEADER_SIZE * |files| + |Contents(files)|
  {
    Front(files) + Headers(files) + Contents(files)
  }

  // What lies where in an image.

  function ContentAt(files: seq<File>, i: nat): nat
    requires i <= |files|
  {
    HEADER_SIZE + FILE_HEADER_SIZE * |files| + |Contents(files[..i])|
  }

  lemma {:induction false} HeaderInHeaders(files: seq<File>, i: nat)
    requires i < |files|
    ensures Headers(files)[FILE_HEADER_SIZE * i..FILE_HEADER_SIZE * (i + 1)] == FileHeader(files[i], |Contents(files[..i])|)
  {
    hide Le32, FileHeader, Contents;
    var before := files[..|files| - 1];
    if i < |before| {
      HeaderInHeaders(before, i);
      assert before[..i] == files[..i];
      assert Headers(files)[FILE_HEADER_SIZE * i..FILE_HEADER_SIZE * (i + 1)]
          == Headers(before)[FILE_HEADER_SIZE * i..FILE_HEADER_SIZE * (i + 1)];
    } else {
      assert before == files[..i];
    }
  }

  lemma {:induction false} ContentInContents(files: seq<File>, i: nat)
    requires i < |files|
    ensures |Contents(files[..i])| + |files[i].content| <= |Contents(files)|
    ensures Contents(files)[|Contents(files[..i])|..|Contents(files[..i])| + |files[i].content|] == files[i].content
  {
    var before := files[..|files| - 1];
    if i < |before| {
      ContentInContents(before, i);
      assert before[..i] == files[..i];
    } else {
      assert before == files[..i];
    }
  }

  lemma Slices(a: Bytes, b: Bytes, c: Bytes, lo: nat, hi: nat)
    requires lo <= hi <= |b| + |c| && (hi <= |b| || |b| <= lo)
    ensures (a + b + c)[|a| + lo..|a| + hi] == if hi <= |b| then b[lo..hi] else c[lo - |b|..hi - |b|]
  {
    var all := a + b + c;
    assert forall k :: lo <= k < hi ==> all[|a| + k] == if k < |b| then b[k] else c[k - |b|];
    if hi <= |b| {
      assert all[|a| + lo..|a| + hi] == b[lo..hi];
    } else {
      assert all[|a| + lo..|a| + hi] == c[lo - |b|..hi - |b|];
    }
  }

  lemma FrontInImage(files: seq<File>)
    ensures Image(files)[..4] == Le32(|files|) && Image(files)[4..8] == Le32(HEADER_SIZE + FILE_HEADER_SIZE * |files|)
  {
    hide Le32, Headers, Contents;
    var rest := Headers(files) + Contents(files);
    assert Image(files) == Le32(|files|) + Le32(HEADER_SIZE + FILE_HEADER_SIZE * |files|) + rest;
  }

  lemma HeaderInImage(files: seq<File>, i: nat)
    requires i < |files|
    ensures var h := HEADER_SIZE + FILE_HEADER_SIZE * i;
      Image(files)[h..h + FILE_HEADER_SIZE] == FileHeader(files[i], |Contents(files[..i])|)
  {
    HeaderInHeaders(files, i);
    hide Le32, FileHeader, Headers, Contents, Front;
    Slices(Front(files), Headers(files), Contents(files), FILE_HEADER_SIZE * i, FILE_HEADER_SIZE * (i + 1));
  }

  lemma ContentInImage(files: seq<File>, i: nat)
    requires i < |files|
    ensures ContentAt(files, i) + |files[i].content| <= |Image(files)|
    ensures Image(files)[ContentAt(files, i)..ContentAt(files, i) + |files[i].content|] == files[i].content
  {
    ContentInContents(files, i);
    hide Le32, FileHeader, Headers, Contents, Front;
    var start := |Headers(files)| + |Contents(files[..i])|;
    Slices(Front(files), Headers(files), Contents(files), start, start + |files[i].content|);
  }

  /** The header and the contents of each file are where the image says they are. */
  lemma InImage(files: seq<File>, i: nat)
    requires i < |files|
    ensures var h := HEADER_SIZE + FILE_HEADER_SIZE * i;
      Image(files)[h..h + FILE_HEADER_SIZE] == FileHeader(files[i], |Contents(files[..i])|)
    ensures ContentAt(files, i) + |files[i].content| <= |Image(files)|
    ensures Image(files)[ContentAt(files, i)..ContentAt(files, i) + |files[i].content|] == files[i].content
    ensures Image(files)[..4] == Le32(|files|) && Image(files)[4..8] == Le32(HEADER_SIZE + FILE_HEADER_SIZE * |files|)
  {
    FrontInImage(files);
    HeaderInImage(files, i);
    ContentInImage(files, i);
    hide Image, Le32, FileHeader, Headers, Contents;
  }

  // The tool.

  /** A line names a file to read, up to its first space, and after that the name it is to have. */
  function FirstSpace(line: Bytes): (p: nat)
    ensures p <= |line| && SPACE_CHAR !in line[..p] && (p < |line| ==> line[p] == SPACE_CHAR)
  {
    if line == [] || line[0] == SPACE_CHAR then 0
    else
      var q := FirstSpace(line[1..]);
      assert line[..q + 1] == [line[0]] + line[1..][..q];
      q + 1
  }

  /** The files that lines call for; None if a line cannot be used. */
  function FilesOf(lines: seq<Bytes>, disk: map<Bytes, Bytes>): Option<seq<File>> {
    if lines == [] then Some([])
    else
      var before := FilesOf(lines[..|lines| - 1], disk);
      var line := lines[|lines| - 1];
      if before == None || line == [] then before
      else
        var p := FirstSpace(line);
        if p < |line| && line[..p] in disk then Some(before.value + [File(line[p + 1..], disk[line[..p]])]) else None
  }

  lemma {:induction false} Unusable(lines: seq<Bytes>, disk: map<Bytes, Bytes>, i: nat)
    requires i <= |lines| && FilesOf(lines[..i], disk) == None
    ensures FilesOf(lines, disk) == None
    decreases |lines|
  {
    if i < |lines| {
      assert lines[..|lines| - 1][..i] == lines[..i];
      Unusable(lines[..|lines| - 1], disk, i);
    } else {
      assert lines[..i] == lines;
    }
  }

  lemma NextLine(lines: seq<Bytes>, disk: map<Bytes, Bytes>, i: nat)
    requires i < |lines|
    ensures var before, line := FilesOf(lines[..i], disk), lines[i];
      FilesOf(lines[..i + 1], disk) ==
        if before == None || line == [] then before
        else
          var p := FirstSpace(line);
          if p < |line| && line[..p] in disk then Some(before.value + [File(line[p + 1..], disk[line[..p]])]) else None
  {
    assert lines[..i + 1][..i] == lines[..i];
  }

  /** A line of an input's name, a space and an output's adds a file of that name with the input's contents;
      an empty line adds none; a line without a space, or whose input is not there, cannot be used. */
  lemma LineMeans(lines: seq<Bytes>, disk: map<Bytes, Bytes>, input: Bytes, output: Bytes)
    requires 32 !in input && FilesOf(lines, disk) != None
    ensures var before := FilesOf(lines, disk).value;
      && FilesOf(lines + [[]], disk) == Some(before)
      && (input != [] ==> FilesOf(lines + [input], disk) == None)
      && FilesOf(lines + [input + [32] + output], disk)
         == if input in disk then Some(before + [File(output, disk[input])]) else None
  {
    var line := input + [32] + output;
    OneLineMore(lines, disk, []);
    OneLineMore(lines, disk, input);
    OneLineMore(lines, disk, line);
    FirstSpaceIs(input, output);
    hide FirstSpace, FilesOf;
    assert line[..|input|] == input && line[|input| + 1..] == output;
  }

  lemma FirstSpaceIs(input: Bytes, output: Bytes)
    requires 32 !in input
    ensures FirstSpace(input) == |input| == FirstSpace(input + [32] + output)
  {
    var line := input + [32] + output;
    assert line[..|input|] == input && line[|input|] == 32 && input[..|input|] == input;
    SpacesAgree(line, |input|, FirstSpace(line));
    SpacesAgree(input, |input|, FirstSpace(input));
  }

  lemma OneLineMore(lines: seq<Bytes>, disk: map<Bytes, Bytes>, line: Bytes)
    ensures var before := FilesOf(lines, disk);
      FilesOf(lines + [line], disk) ==
        if before == None || line == [] then before
        else
          var p := FirstSpace(line);
          if p < |line| && line[..p] in disk then Some(before.value + [File(line[p + 1..], disk[line[..p]])]) else None
  {
    hide FirstSpace;
    assert (lines + [line])[..|lines|] == lines && (lines + [line])[..|lines| + 1] == lines + [line];
    NextLine(lines + [line], disk, |lines|);
  }

  lemma Nothing(disk: map<Bytes, Bytes>)
    ensures FilesOf([], disk) == Some([]) && Headers([]) == [] && Contents([]) == []
  {
  }

  lemma NextFile(files: seq<File>, file: File)
    ensures Headers(files + [file]) == Headers(files) + FileHeader(file, |Contents(files)|)
    ensures Contents(files + [file]) == Contents(files) + file.content
  {
    assert (files + [file])[..|files|] == files;
  }

  method Build(lines: seq<Bytes>, disk: map<Bytes, Bytes>) returns (r: Option<Bytes>)
    ensures r == None <==> FilesOf(lines, disk) == None
    ensures r != None ==> r.value == Image(FilesOf(lines, disk).value)
  {
    hide FilesOf, Headers, Contents, FileHeader, Le32, FirstSpace;
    Nothing(disk);
    assert lines[..0] == [];
    var numFiles := 0;
    var headerStream: Bytes, contentStream: Bytes := [], [];
    ghost var files: seq<File> := [];
    var i := 0;
    while i < |lines|
      invariant i <= |lines| && FilesOf(lines[..i], disk) == Some(files) && numFiles == |files|
      invariant headerStream == Headers(files) && contentStream == Contents(files)
    {
      var line := lines[i];
      NextLine(lines, disk, i);
      i := i + 1;
      if |line| == 0 {
        continue;
      }
      var splitPos := FindFirstOf(line);
      if splitPos == |line| || line[..splitPos] !in disk {
        Unusable(lines, disk, i);
        return None;
      }
      var content := disk[line[..splitPos]];
      var file := File(line[splitPos + 1..], content);
      headerStream := headerStream + FileHeader(file, |contentStream|);
      contentStream := contentStream + content;
      NextFile(files, file);
      files := files + [file];
      numFiles := numFiles + 1;
    }
    assert lines[..i] == lines;
    r := Some(Le32(numFiles) + Le32(HEADER_SIZE + |headerStream|) + headerStream + contentStream);
  }

  method FindFirstOf(line: Bytes) returns (p: nat)
    ensures p == FirstSpace(line)
  {
    p := 0;
    while p < |line| && line[p] != SPACE_CHAR
      invariant p <= |line| && SPACE_CHAR !in line[..p]
    {
      assert line[..p + 1] == line[..p] + [line[p]];
      p := p + 1;
    }
    SpacesAgree(line, p, FirstSpace(line));
  }

  lemma SpacesAgree(line: Bytes, p: nat, q: nat)
    requires p <= |line| && q <= |line| && SPACE_CHAR !in line[..p] && SPACE_CHAR !in line[..q]
    requires (p < |line| ==> line[p] == SPACE_CHAR) && (q < |line| ==> line[q] == SPACE_CHAR)
    ensures p == q
  {
  }
}
