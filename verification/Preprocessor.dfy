/** The style tool's nesting state, and what preprocessor conditionals do to it. */
module Preprocessor {

  // Lines.

  datatype Kind = If | Else | Endif | Other

  predicate IsBlank(c: char) { c == ' ' || 9 <= c as int <= 13 }

  predicate IsWord(c: char) { 'a' <= c <= 'z' || 'A' <= c <= 'Z' || '0' <= c <= '9' || c == '_' }

  function SkipBlanks(s: string): string {
    if s != "" && IsBlank(s[0]) then SkipBlanks(s[1..]) else s
  }

  function FirstWord(s: string): string {
    if s != "" && IsWord(s[0]) then [s[0]] + FirstWord(s[1..]) else ""
  }

  /** What the three patterns make of a line: a hash sign, and one of some words that ends there. */
  function KindOf(line: string): Kind {
    var s := SkipBlanks(line);
    if s == "" || s[0] != '#' then Other
    else
      KindOfWord(FirstWord(SkipBlanks(s[1..])))
  }

  function KindOfWord(word: string): Kind {
    if word == "if" || word == "ifdef" || word == "ifndef" then If
    else if word == "else" || word == "elif" then Else
    else if word == "endif" then Endif
    else Other
  }

  // What those patterns match, said without taking a line apart.

  const BLANKS := " \t\n\r\U{0B}\U{0C}"

  /** Letters, digits and the underscore, by their codes. */
  ghost predicate GoesOn(s: string) {
    s != "" && var n := s[0] as int; 48 <= n <= 57 || 65 <= n <= 90 || n == 95 || 97 <= n <= 122
  }

  /** A line is blanks, a hash sign, blanks, a word, and a rest that does not go on with the word. */
  ghost predicate Reads(line: string, before: string, between: string, word: string, rest: string) {
    && line == before + "#" + between + word + rest
    && (forall c :: c in before || c in between ==> c in BLANKS)
    && !GoesOn(rest)
  }

  ghost predicate Directive(line: string, words: set<string>) {
    exists before, between, word, rest :: word in words && Reads(line, before, between, word, rest)
  }

  lemma CharsAgree(c: char)
    ensures IsBlank(c) <==> c in BLANKS
    ensures IsWord(c) <==> GoesOn([c])
  {
    assert c in BLANKS <==> c == ' ' || c == '\t' || c == '\n' || c == '\r' || c == '\U{0B}' || c == '\U{0C}';
  }

  lemma {:induction false} BlanksSkipped(blanks: string, s: string)
    requires (forall c :: c in blanks ==> IsBlank(c)) && (s != "" ==> !IsBlank(s[0]))
    ensures SkipBlanks(blanks + s) == s
  {
    if blanks == "" {
      assert blanks + s == s;
    } else {
      assert blanks[0] in blanks && (blanks + s)[1..] == blanks[1..] + s;
      BlanksSkipped(blanks[1..], s);
    }
  }

  lemma {:induction false} SkippedBlanks(s: string) returns (blanks: string)
    ensures s == blanks + SkipBlanks(s) && (forall c :: c in blanks ==> IsBlank(c))
    ensures SkipBlanks(s) != "" ==> !IsBlank(SkipBlanks(s)[0])
  {
    blanks := "";
    if s != "" && IsBlank(s[0]) {
      var more := SkippedBlanks(s[1..]);
      blanks := [s[0]] + more;
    }
  }

  lemma {:induction false} WordRead(word: string, rest: string)
    requires (forall c :: c in word ==> IsWord(c)) && (rest != "" ==> !IsWord(rest[0]))
    ensures FirstWord(word + rest) == word
  {
    if word == "" {
      assert word + rest == rest;
    } else {
      assert word[0] in word && (word + rest)[1..] == word[1..] + rest;
      WordRead(word[1..], rest);
    }
  }

  lemma {:induction false} ReadWord(s: string) returns (rest: string)
    ensures s == FirstWord(s) + rest && (forall c :: c in FirstWord(s) ==> IsWord(c)) && (rest != "" ==> !IsWord(rest[0]))
  {
    rest := s;
    if s != "" && IsWord(s[0]) {
      rest := ReadWord(s[1..]);
    }
  }

  /** A line that reads so is of its word's kind. */
  lemma KindRead(line: string, before: string, between: string, word: string, rest: string)
    requires Reads(line, before, between, word, rest) && word != "" && forall c :: c in word ==> 'a' <= c <= 'z'
    ensures KindOf(line) == KindOfWord(word)
  {
    forall c ensures IsBlank(c) <==> c in BLANKS {
      CharsAgree(c);
    }
    if rest != "" {
      CharsAgree(rest[0]);
    }
    assert word[0] in word && !IsBlank(word[0]) && forall c :: c in word ==> IsWord(c);
    hide IsBlank, IsWord, KindOfWord;
    var s := between + (word + rest);
    assert line == before + (['#'] + s) && (['#'] + s)[1..] == s;
    assert '#' !in BLANKS;
    BlanksSkipped(before, ['#'] + s);
    BlanksSkipped(between, word + rest);
    WordRead(word, rest);
  }

  /** And one whose kind is a directive's reads so. */
  lemma ReadKind(line: string) returns (word: string)
    ensures KindOf(line) != Other ==> KindOf(line) == KindOfWord(word) && Directive(line, {word})
  {
    hide IsBlank, IsWord, KindOfWord, SkipBlanks, FirstWord;
    var s := SkipBlanks(line);
    word := "";
    if KindOf(line) != Other {
      var before := SkippedBlanks(line);
      var between := SkippedBlanks(s[1..]);
      word := FirstWord(SkipBlanks(s[1..]));
      var rest := ReadWord(SkipBlanks(s[1..]));
      hide KindOf;
      forall c ensures IsBlank(c) <==> c in BLANKS {
        CharsAgree(c);
      }
      if rest != "" {
        CharsAgree(rest[0]);
      }
      assert s == "#" + s[1..];
      assert line == before + "#" + between + word + rest;
      assert Reads(line, before, between, word, rest);
    }
  }

  /** The kind of a line, from what it reads like. */
  lemma KindMeans(line: string)
    ensures KindOf(line) == If <==> Directive(line, {"if", "ifdef", "ifndef"})
    ensures KindOf(line) == Else <==> Directive(line, {"else", "elif"})
    ensures KindOf(line) == Endif <==> Directive(line, {"endif"})
  {
    var read := ReadKind(line);
    forall before, between, word, rest
      | word in {"if", "ifdef", "ifndef", "else", "elif", "endif"} && Reads(line, before, between, word, rest)
      ensures KindOf(line) == KindOfWord(word)
    {
      KindRead(line, before, between, word, rest);
    }
    hide KindOf, Reads;
  }

  // The nesting state. What a line does to the stack apart from its being a directive is any function at all.

  datatype Info<T> = Info(stackBeforeIf: seq<T>, stackBeforeElse: seq<T>, seenElse: bool)

  datatype State<T> = State(stack: seq<T>, ppStack: seq<Info<T>>)

  type Effect<!T> = (seq<T>, string) -> seq<T>

  function Snapshot<T>(s: State<T>, kind: Kind): State<T> {
    var last := |s.ppStack| - 1;
    match kind
    case If => s.(ppStack := s.ppStack + [Info(s.stack, [], false)])
    case Else =>
      if s.ppStack == [] then s
      else
        var top := s.ppStack[last];
        var top' := if top.seenElse then top else top.(seenElse := true, stackBeforeElse := s.stack);
        State(top.stackBeforeIf, s.ppStack[last := top'])
    case Endif =>
      if s.ppStack == [] then s
      else
        var top := s.ppStack[last];
        State(if top.seenElse then top.stackBeforeElse else s.stack, s.ppStack[..last])
    case Other => s
  }

  function Step<T>(s: State<T>, line: string, effect: Effect<T>): State<T> {
    var s' := Snapshot(s, KindOf(line));
    s'.(stack := effect(s'.stack, line))
  }

  function After<T>(s: State<T>, lines: seq<string>, effect: Effect<T>): State<T>
    decreases lines
  {
    if lines == [] then s else After(Step(s, lines[0], effect), lines[1..], effect)
  }

  class NestingState<T> {
    var stack: seq<T>
    var ppStack: seq<Info<T>>

    constructor ()
      ensures Now() == State([], [])
    {
      stack, ppStack := [], [];
    }

    function Now(): State<T>
      reads this
    {
      State(stack, ppStack)
    }

    method UpdatePreprocessor(line: string)
      modifies this
      ensures Now() == Snapshot(old(Now()), KindOf(line))
    {
      var last := |ppStack| - 1;
      match KindOf(line) {
        case If =>
          ppStack := ppStack + [Info(stack, [], false)];
        case Else =>
          if ppStack != [] {
            if !ppStack[last].seenElse {
              ppStack := ppStack[last := ppStack[last].(seenElse := true)];
              ppStack := ppStack[last := ppStack[last].(stackBeforeElse := stack)];
            }
            stack := ppStack[last].stackBeforeIf;
          }
        case Endif =>
          if ppStack != [] {
            if ppStack[last].seenElse {
              stack := ppStack[last].stackBeforeElse;
            }
            ppStack := ppStack[..last];
          }
        case Other =>
      }
    }

    method Update(line: string, effect: Effect<T>)
      modifies this
      ensures Now() == Step(old(Now()), line, effect)
    {
      UpdatePreprocessor(line);
      stack := effect(stack, line);
    }

    /** A whole text, line by line. */
    method Process(lines: seq<string>, effect: Effect<T>)
      modifies this
      ensures Now() == After(old(Now()), lines, effect)
    {
      var i := 0;
      while i < |lines|
        invariant i <= |lines| && After(Now(), lines[i..], effect) == After(old(Now()), lines, effect)
      {
        assert lines[i..][1..] == lines[i + 1..];
        Update(lines[i], effect);
        i := i + 1;
      }
    }
  }

  // Any sequence of lines, with the lines of else-branches left out.

  /** Whether each open conditional has seen an else; and what a line makes of that. */
  function Opened(open: seq<bool>, kind: Kind): seq<bool> {
    match kind
    case If => open + [false]
    case Else => if open == [] then open else open[|open| - 1 := true]
    case Endif => if open == [] then open else open[..|open| - 1]
    case Other => open
  }

  /** A line stays if after it no open conditional has seen an else: so an else goes, unless it belongs
      to no conditional, and the end of a conditional stays where its beginning does. */
  predicate Kept(open: seq<bool>, kind: Kind) {
    true !in Opened(open, kind)
  }

  function Pruned(lines: seq<string>, open: seq<bool>): seq<string>
    decreases lines
  {
    if lines == [] then []
    else
      var kind := KindOf(lines[0]);
      (if Kept(open, kind) then [lines[0]] else []) + Pruned(lines[1..], Opened(open, kind))
  }

  function Flags<T>(pp: seq<Info<T>>): (open: seq<bool>)
    ensures |open| == |pp| && forall i :: 0 <= i < |pp| ==> open[i] == pp[i].seenElse
  {
    seq(|pp|, i requires 0 <= i < |pp| => pp[i].seenElse)
  }

  /** The outermost conditional that has seen an else, or none. */
  function Outermost(open: seq<bool>): (k: nat)
    ensures k <= |open| && (forall i :: 0 <= i < k ==> !open[i]) && (k < |open| ==> open[k])
    ensures k == |open| <==> true !in open
  {
    if open == [] || open[0] then 0 else 1 + Outermost(open[1..])
  }

  /** What the state after the whole text and the state after the pruned text have to do with each
      other: outside else-branches they are the same; inside, the latter is where the outermost one
      of them began. */
  ghost predicate Related<T>(full: State<T>, pruned: State<T>) {
    var k := Outermost(Flags(full.ppStack));
    if k == |full.ppStack| then pruned == full
    else
      && pruned.stack == full.ppStack[k].stackBeforeElse && |pruned.ppStack| == k + 1
      && pruned.ppStack[..k] == full.ppStack[..k] && !pruned.ppStack[k].seenElse
  }

  lemma OutermostIs(open: seq<bool>, k: nat)
    requires k <= |open| && (forall i :: 0 <= i < k ==> !open[i]) && (k < |open| ==> open[k])
    ensures Outermost(open) == k && (true in open <==> k < |open|)
  {
  }

  lemma FlagsNext<T>(s: State<T>, kind: Kind)
    ensures Flags(Snapshot(s, kind).ppStack) == Opened(Flags(s.ppStack), kind)
  {
  }

  /** Where the outermost else-branch is after a line. */
  function OutermostNext(open: seq<bool>, kind: Kind): (k: nat)
    ensures k == Outermost(Opened(open, kind)) <= |Opened(open, kind)|
    ensures true in Opened(open, kind) <==> k < |Opened(open, kind)|
  {
    var k := Outermost(open);
    var k' :=
      if k < |open| then k
      else
        match kind
        case If => k + 1
        case Else => if open == [] then 0 else k - 1
        case Endif => if open == [] then 0 else k - 1
        case Other => k;
    OutermostIs(Opened(open, kind), k');
    k'
  }

  lemma OneSnapshot<T>(full: State<T>, pruned: State<T>, kind: Kind)
    requires Related(full, pruned)
    ensures Related(Snapshot(full, kind), if Kept(Flags(full.ppStack), kind) then Snapshot(pruned, kind) else pruned)
    ensures Kept(Flags(full.ppStack), kind) ==> Snapshot(pruned, kind) == Snapshot(full, kind)
  {
    FlagsNext(full, kind);
    var open := Flags(full.ppStack);
    var k, k' := Outermost(open), OutermostNext(open, kind);
    if kind == Endif && k + 1 == |open| {
      assert pruned.ppStack[..k] == full.ppStack[..k];
    }
  }

  lemma OneLine<T>(full: State<T>, pruned: State<T>, line: string, effect: Effect<T>)
    requires Related(full, pruned)
    ensures Related(Step(full, line, effect), if Kept(Flags(full.ppStack), KindOf(line)) then Step(pruned, line, effect) else pruned)
    ensures Flags(Step(full, line, effect).ppStack) == Opened(Flags(full.ppStack), KindOf(line))
  {
    var kind := KindOf(line);
    FlagsNext(full, kind);
    OneSnapshot(full, pruned, kind);
    hide KindOf;
    var k' := OutermostNext(Flags(full.ppStack), kind);
  }

  /** Pruning changes nothing that can be seen outside else-branches, whatever lines do to the stack. */
  lemma {:induction false} PruningKeeps<T>(full: State<T>, pruned: State<T>, lines: seq<string>, effect: Effect<T>)
    requires Related(full, pruned)
    ensures Related(After(full, lines, effect), After(pruned, Pruned(lines, Flags(full.ppStack)), effect))
    decreases lines
  {
    hide Related, KindOf, Kept, Opened, Step;
    if lines != [] {
      OneLine(full, pruned, lines[0], effect);
      var kept := Kept(Flags(full.ppStack), KindOf(lines[0]));
      var rest := Pruned(lines[1..], Opened(Flags(full.ppStack), KindOf(lines[0])));
      PruningKeeps(Step(full, lines[0], effect), if kept then Step(pruned, lines[0], effect) else pruned, lines[1..], effect);
      if kept {
        assert ([lines[0]] + rest)[1..] == rest;
      } else {
        assert [] + rest == rest;
      }
    }
  }

  // Well-nested text: the same said by a grammar.

  datatype Text =
    | End
    | Plain(line: string, rest: Text)
    | Conditional(head: string, body: Text, others: Branches, foot: string, rest: Text)

  /** The branches of a conditional after its first. */
  datatype Branches = NoMore | Branch(head: string, body: Text, more: Branches)

  predicate WellFormed(t: Text) {
    match t
    case End => true
    case Plain(line, rest) => KindOf(line) == Other && WellFormed(rest)
    case Conditional(head, body, others, foot, rest) =>
      KindOf(head) == If && WellFormed(body) && WellFormedBranches(others) && KindOf(foot) == Endif && WellFormed(rest)
  }

  predicate WellFormedBranches(b: Branches) {
    match b
    case NoMore => true
    case Branch(head, body, more) => KindOf(head) == Else && WellFormed(body) && WellFormedBranches(more)
  }

  function Lines(t: Text): seq<string> {
    match t
    case End => []
    case Plain(line, rest) => [line] + Lines(rest)
    case Conditional(head, body, others, foot, rest) => [head] + (Lines(body) + (LinesOf(others) + ([foot] + Lines(rest))))
  }

  function LinesOf(b: Branches): seq<string> {
    match b
    case NoMore => []
    case Branch(head, body, more) => [head] + (Lines(body) + LinesOf(more))
  }

  /** Every conditional is closed, and every else and every end belongs to one: counted, from some depth on. */
  predicate Nested(lines: seq<string>, depth: nat)
    decreases lines
  {
    if lines == [] then depth == 0
    else
      match KindOf(lines[0])
      case If => Nested(lines[1..], depth + 1)
      case Else => 0 < depth && Nested(lines[1..], depth)
      case Endif => 0 < depth && Nested(lines[1..], depth - 1)
      case Other => Nested(lines[1..], depth)
  }

  /** As much of the lines as is a text, up to what closes or goes on with what is open. */
  lemma {:induction false} Parse(lines: seq<string>, depth: nat) returns (t: Text, rest: seq<string>)
    requires Nested(lines, depth)
    ensures WellFormed(t) && lines == Lines(t) + rest && Nested(rest, depth)
    ensures rest == [] || KindOf(rest[0]) == Else || KindOf(rest[0]) == Endif
    decreases |lines|
  {
    hide KindOf;
    t, rest := End, lines;
    if lines != [] && KindOf(lines[0]) == Other {
      t, rest := Parse(lines[1..], depth);
      t := Plain(lines[0], t);
    } else if lines != [] && KindOf(lines[0]) == If {
      var body, others, after, afterwards;
      body, after := Parse(lines[1..], depth + 1);
      others, afterwards := ParseBranches(after, depth + 1);
      t, rest := Parse(afterwards[1..], depth);
      var foot := afterwards[0];
      assert afterwards == [foot] + (Lines(t) + rest);
      Split(Conditional(lines[0], body, others, foot, t), rest, []);
      t := Conditional(lines[0], body, others, foot, t);
    }
  }

  lemma {:induction false} ParseBranches(lines: seq<string>, depth: nat) returns (b: Branches, rest: seq<string>)
    requires Nested(lines, depth) && 0 < depth && lines != [] && (KindOf(lines[0]) == Else || KindOf(lines[0]) == Endif)
    ensures WellFormedBranches(b) && lines == LinesOf(b) + rest && Nested(rest, depth) && rest != [] && KindOf(rest[0]) == Endif
    decreases |lines|
  {
    hide KindOf;
    b, rest := NoMore, lines;
    if KindOf(lines[0]) == Else {
      var body, after := Parse(lines[1..], depth);
      b, rest := ParseBranches(after, depth);
      b := Branch(lines[0], body, b);
    }
  }

  lemma {:induction false} TextNested(t: Text, tail: seq<string>, depth: nat)
    requires WellFormed(t)
    ensures Nested(Lines(t) + tail, depth) <==> Nested(tail, depth)
  {
    hide KindOf, Lines, LinesOf;
    Split(t, tail, []);
    match t {
      case End =>
      case Plain(line, rest) =>
        NestedMore(line, Lines(rest) + tail, depth);
        TextNested(rest, tail, depth);
      case Conditional(head, body, others, foot, rest) =>
        var tail1 := Lines(rest) + tail;
        var tail2 := LinesOf(others) + ([foot] + tail1);
        NestedMore(head, Lines(body) + tail2, depth);
        TextNested(body, tail2, depth + 1);
        BranchesNested(others, [foot] + tail1, depth + 1);
        NestedMore(foot, tail1, depth + 1);
        TextNested(rest, tail, depth);
    }
  }

  lemma NestedMore(line: string, more: seq<string>, depth: nat)
    ensures Nested([line] + more, depth) <==>
              match KindOf(line)
              case If => Nested(more, depth + 1)
              case Else => 0 < depth && Nested(more, depth)
              case Endif => 0 < depth && Nested(more, depth - 1)
              case Other => Nested(more, depth)
  {
    hide KindOf;
    assert ([line] + more)[1..] == more;
  }

  lemma {:induction false} BranchesNested(b: Branches, tail: seq<string>, depth: nat)
    requires WellFormedBranches(b) && 0 < depth
    ensures Nested(LinesOf(b) + tail, depth) <==> Nested(tail, depth)
  {
    hide KindOf, Lines;
    match b {
      case NoMore =>
        assert LinesOf(b) + tail == tail;
      case Branch(head, body, more) =>
        assert LinesOf(b) + tail == [head] + (Lines(body) + (LinesOf(more) + tail));
        NestedMore(head, Lines(body) + (LinesOf(more) + tail), depth);
        TextNested(body, LinesOf(more) + tail, depth);
        BranchesNested(more, tail, depth);
    }
  }

  /** The grammar has a text for lines exactly when counting finds them nested. */
  lemma NestedIsText(lines: seq<string>)
    ensures Nested(lines, 0) <==> exists t :: WellFormed(t) && Lines(t) == lines
  {
    hide KindOf, Lines;
    if Nested(lines, 0) {
      var t, rest := Parse(lines, 0);
      NothingNested(rest);
      assert Lines(t) + [] == Lines(t);
    }
    forall t | WellFormed(t) && Lines(t) == lines ensures Nested(lines, 0) {
      TextNested(t, [], 0);
      assert Lines(t) + [] == lines;
    }
  }

  lemma NothingNested(rest: seq<string>)
    requires Nested(rest, 0) && (rest == [] || KindOf(rest[0]) == Else || KindOf(rest[0]) == Endif)
    ensures rest == []
  {
  }

  /** Every branch but the first deleted. */
  function FirstBranches(t: Text): seq<string> {
    match t
    case End => []
    case Plain(line, rest) => [line] + FirstBranches(rest)
    case Conditional(head, body, _, foot, rest) => [head] + (FirstBranches(body) + ([foot] + FirstBranches(rest)))
  }

  /** The flags after some lines. */
  function OpenedAll(lines: seq<string>, open: seq<bool>): seq<bool>
    decreases lines
  {
    if lines == [] then open else OpenedAll(lines[1..], Opened(open, KindOf(lines[0])))
  }

  lemma OneMore(line: string, more: seq<string>, open: seq<bool>)
    ensures Pruned([line] + more, open)
         == (if Kept(open, KindOf(line)) then [line] else []) + Pruned(more, Opened(open, KindOf(line)))
    ensures OpenedAll([line] + more, open) == OpenedAll(more, Opened(open, KindOf(line)))
  {
    assert ([line] + more)[1..] == more;
  }

  /** The same for each kind of line, with what it opens or closes made explicit. */
  lemma OneMoreIf(line: string, more: seq<string>, open: seq<bool>)
    requires KindOf(line) == If
    ensures Pruned([line] + more, open) == if true in open then Pruned(more, open + [false]) else [line] + Pruned(more, open + [false])
    ensures OpenedAll([line] + more, open) == OpenedAll(more, open + [false])
  {
    hide Pruned, OpenedAll, KindOf;
    OneMore(line, more, open);
  }

  lemma OneMoreElse(line: string, more: seq<string>, open: seq<bool>, seen: bool)
    requires KindOf(line) == Else
    ensures Pruned([line] + more, open + [seen]) == Pruned(more, open + [true])
    ensures OpenedAll([line] + more, open + [seen]) == OpenedAll(more, open + [true])
  {
    hide Pruned, OpenedAll, KindOf;
    OneMore(line, more, open + [seen]);
    assert Opened(open + [seen], Else) == open + [true];
    assert (open + [true])[|open|];
  }

  lemma OneMoreEndif(line: string, more: seq<string>, open: seq<bool>, seen: bool)
    requires KindOf(line) == Endif
    ensures Pruned([line] + more, open + [seen]) == if true in open then Pruned(more, open) else [line] + Pruned(more, open)
    ensures OpenedAll([line] + more, open + [seen]) == OpenedAll(more, open)
  {
    hide Pruned, OpenedAll, KindOf;
    OneMore(line, more, open + [seen]);
    assert Opened(open + [seen], Endif) == open;
  }

  lemma {:induction false} TextPruned(t: Text, open: seq<bool>, tail: seq<string>)
    requires WellFormed(t)
    ensures Pruned(Lines(t) + tail, open) == if true in open then Pruned(tail, open) else FirstBranches(t) + Pruned(tail, open)
    ensures OpenedAll(Lines(t) + tail, open) == OpenedAll(tail, open)
  {
    hide Pruned, OpenedAll, KindOf, Kept, Opened, Lines, LinesOf, FirstBranches;
    Split(t, tail, Pruned(tail, open));
    match t {
      case End =>
      case Plain(line, rest) =>
        PlainKept(line, Lines(rest) + tail, open);
        TextPruned(rest, open, tail);
      case Conditional(head, body, others, foot, rest) =>
        var tail1 := Lines(rest) + tail;
        var tail2 := [foot] + tail1;
        var tail3 := LinesOf(others) + tail2;
        OneMoreIf(head, Lines(body) + tail3, open);
        TextPruned(body, open + [false], tail3);
        BranchesPruned(others, open, false, tail2);
        OneMoreEndif(foot, tail1, open, others.Branch?);
        TextPruned(rest, open, tail);
    }
  }

  lemma Split(t: Text, tail: seq<string>, p: seq<string>)
    ensures match t
      case End => Lines(t) + tail == tail && FirstBranches(t) + p == p
      case Plain(line, rest) =>
        Lines(t) + tail == [line] + (Lines(rest) + tail) && FirstBranches(t) + p == [line] + (FirstBranches(rest) + p)
      case Conditional(head, body, others, foot, rest) =>
        && Lines(t) + tail == [head] + (Lines(body) + (LinesOf(others) + ([foot] + (Lines(rest) + tail))))
        && FirstBranches(t) + p == [head] + (FirstBranches(body) + ([foot] + (FirstBranches(rest) + p)))
  {
    match t {
      case End =>
      case Plain(line, rest) =>
        Assoc([line], Lines(rest), tail);
        Assoc([line], FirstBranches(rest), p);
      case Conditional(head, body, others, foot, rest) =>
        var l3, f3 := [foot] + Lines(rest), [foot] + FirstBranches(rest);
        Assoc([head], Lines(body) + (LinesOf(others) + l3), tail);
        Assoc(Lines(body), LinesOf(others) + l3, tail);
        Assoc(LinesOf(others), l3, tail);
        Assoc([foot], Lines(rest), tail);
        Assoc([head], FirstBranches(body) + f3, p);
        Assoc(FirstBranches(body), f3, p);
        Assoc([foot], FirstBranches(rest), p);
    }
  }

  lemma Assoc(a: seq<string>, b: seq<string>, c: seq<string>)
    ensures (a + b) + c == a + (b + c)
  {
  }

  lemma PlainKept(line: string, more: seq<string>, open: seq<bool>)
    requires KindOf(line) == Other
    ensures Pruned([line] + more, open) == if true in open then Pruned(more, open) else [line] + Pruned(more, open)
    ensures OpenedAll([line] + more, open) == OpenedAll(more, open)
  {
    hide Pruned, OpenedAll, KindOf;
    OneMore(line, more, open);
  }

  lemma {:induction false} BranchesPruned(b: Branches, open: seq<bool>, seen: bool, tail: seq<string>)
    requires WellFormedBranches(b)
    ensures Pruned(LinesOf(b) + tail, open + [seen]) == Pruned(tail, open + [seen || b.Branch?])
    ensures OpenedAll(LinesOf(b) + tail, open + [seen]) == OpenedAll(tail, open + [seen || b.Branch?])
  {
    hide Pruned, OpenedAll, KindOf, Kept, Opened;
    match b {
      case NoMore =>
        assert LinesOf(b) + tail == tail;
      case Branch(head, body, more) =>
        assert LinesOf(b) + tail == [head] + (Lines(body) + (LinesOf(more) + tail));
        OneMoreElse(head, Lines(body) + (LinesOf(more) + tail), open, seen);
        assert (open + [true])[|open|];
        TextPruned(body, open + [true], LinesOf(more) + tail);
        BranchesPruned(more, open, true, tail);
    }
  }

  lemma {:induction false} FlagsAfter<T>(s: State<T>, lines: seq<string>, effect: Effect<T>)
    ensures Flags(After(s, lines, effect).ppStack) == OpenedAll(lines, Flags(s.ppStack))
    decreases lines
  {
    if lines != [] {
      FlagsNext(s, KindOf(lines[0]));
      FlagsAfter(Step(s, lines[0], effect), lines[1..], effect);
    }
  }

  /** What lines do to a stack when none is a directive. */
  function Folded<T>(stack: seq<T>, lines: seq<string>, effect: Effect<T>): seq<T>
    decreases lines
  {
    if lines == [] then stack else Folded(effect(stack, lines[0]), lines[1..], effect)
  }

  /** Where no else has been seen, before or after, a directive leaves the stack alone. */
  lemma QuietSnapshot<T>(s: State<T>, kind: Kind)
    requires true !in Flags(s.ppStack) && Kept(Flags(s.ppStack), kind)
    ensures Snapshot(s, kind).stack == s.stack && true !in Flags(Snapshot(s, kind).ppStack)
  {
    FlagsNext(s, kind);
    var open, last := Flags(s.ppStack), |s.ppStack| - 1;
    assert open != [] ==> open[last] in open && open[last := true][last] in open[last := true];
  }

  lemma PrunedQuiet<T>(full: State<T>, pruned: State<T>)
    requires Related(full, pruned)
    ensures true !in Flags(pruned.ppStack)
  {
    var k := Outermost(Flags(full.ppStack));
    if k < |full.ppStack| {
      forall i | 0 <= i < |pruned.ppStack| ensures !pruned.ppStack[i].seenElse {
        assert i < k ==> pruned.ppStack[i] == pruned.ppStack[..k][i] == full.ppStack[..k][i];
      }
    }
  }

  /** The pruned text is a text whose lines do to the stack just what they would do if none of them were
      a directive. */
  lemma {:induction false} PrunedFolds<T>(full: State<T>, pruned: State<T>, lines: seq<string>, effect: Effect<T>)
    requires Related(full, pruned)
    ensures var kept := Pruned(lines, Flags(full.ppStack));
      After(pruned, kept, effect).stack == Folded(pruned.stack, kept, effect)
    decreases lines
  {
    hide Related, KindOf, Kept, Opened, Snapshot;
    if lines != [] {
      var line, kind := lines[0], KindOf(lines[0]);
      OneLine(full, pruned, line, effect);
      var kept := Kept(Flags(full.ppStack), kind);
      var rest := Pruned(lines[1..], Opened(Flags(full.ppStack), kind));
      PrunedFolds(Step(full, line, effect), if kept then Step(pruned, line, effect) else pruned, lines[1..], effect);
      if kept {
        QuietStep(full, pruned, kind);
        assert ([line] + rest)[1..] == rest;
      } else {
        assert [] + rest == rest;
      }
    }
  }

  lemma QuietStep<T>(full: State<T>, pruned: State<T>, kind: Kind)
    requires Related(full, pruned) && Kept(Flags(full.ppStack), kind)
    ensures Snapshot(pruned, kind).stack == pruned.stack
  {
    OneSnapshot(full, pruned, kind);
    PrunedQuiet(full, pruned);
    FlagsNext(full, kind);
    FlagsNext(pruned, kind);
    QuietSnapshot(pruned, kind);
  }

  // Each branch starts where the first did.

  lemma {:induction false} AfterBoth<T>(s: State<T>, a: seq<string>, b: seq<string>, effect: Effect<T>)
    ensures After(s, a + b, effect) == After(After(s, a, effect), b, effect)
    decreases a
  {
    hide Step;
    if a == [] {
      assert a + b == b;
    } else {
      assert (a + b)[1..] == a[1..] + b;
      AfterBoth(Step(s, a[0], effect), a[1..], b, effect);
    }
  }

  lemma AfterOne<T>(s: State<T>, line: string, effect: Effect<T>)
    ensures After(s, [line], effect) == Step(s, line, effect)
  {
    hide Step;
    assert [line][1..] == [];
  }

  /** Well-nested text closes what it opens, and leaves what was open as it was. */
  lemma {:induction false} TextCloses<T>(s: State<T>, t: Text, effect: Effect<T>)
    requires WellFormed(t)
    ensures After(s, Lines(t), effect).ppStack == s.ppStack
    decreases t
  {
    hide KindOf, After;
    match t {
      case End =>
        AfterNone(s, effect);
      case Plain(line, rest) =>
        AfterBoth(s, [line], Lines(rest), effect);
        AfterOne(s, line, effect);
        TextCloses(Step(s, line, effect), rest, effect);
      case Conditional(head, body, others, foot, rest) =>
        var s1 := Step(s, head, effect);
        var s2 := After(s1, Lines(body), effect);
        var s3 := After(s2, LinesOf(others), effect);
        AfterConditional(s, head, body, others, [foot] + Lines(rest), effect);
        TextCloses(s1, body, effect);
        BranchesClose(s2, others, effect);
        AfterBoth(s3, [foot], Lines(rest), effect);
        AfterOne(s3, foot, effect);
        TextCloses(Step(s3, foot, effect), rest, effect);
    }
  }

  lemma AfterNone<T>(s: State<T>, effect: Effect<T>)
    ensures After(s, [], effect) == s
  {
  }

  lemma AfterConditional<T>(s: State<T>, head: string, body: Text, others: Branches, tail: seq<string>, effect: Effect<T>)
    ensures After(s, [head] + (Lines(body) + (LinesOf(others) + tail)), effect)
         == After(After(After(Step(s, head, effect), Lines(body), effect), LinesOf(others), effect), tail, effect)
  {
    hide After, Step;
    AfterBoth(s, [head], Lines(body) + (LinesOf(others) + tail), effect);
    AfterOne(s, head, effect);
    AfterBoth(Step(s, head, effect), Lines(body), LinesOf(others) + tail, effect);
    AfterBoth(After(Step(s, head, effect), Lines(body), effect), LinesOf(others), tail, effect);
  }

  /** The branches of a conditional leave what was open below it, and where its own first branch began. */
  lemma {:induction false} BranchesClose<T>(s: State<T>, b: Branches, effect: Effect<T>)
    requires WellFormedBranches(b) && s.ppStack != []
    ensures var pp, last := After(s, LinesOf(b), effect).ppStack, |s.ppStack| - 1;
      |pp| == |s.ppStack| && pp[..last] == s.ppStack[..last] && pp[last].stackBeforeIf == s.ppStack[last].stackBeforeIf
    decreases b
  {
    hide KindOf, After;
    match b {
      case NoMore =>
        AfterNone(s, effect);
      case Branch(head, body, more) =>
        AfterBoth(s, [head], Lines(body) + LinesOf(more), effect);
        AfterOne(s, head, effect);
        var s1 := Step(s, head, effect);
        AfterBoth(s1, Lines(body), LinesOf(more), effect);
        TextCloses(s1, body, effect);
        BranchesClose(After(s1, Lines(body), effect), more, effect);
    }
  }

  /** After any lines, a conditional, and any of its branches: an else begins with the stack that the
      conditional began with, whatever the branches before have made of it. */
  lemma BranchStarts<T>(s: State<T>, before: seq<string>, head: string, body: Text, others: Branches, line: string, effect: Effect<T>)
    requires KindOf(head) == If && WellFormed(body) && WellFormedBranches(others) && KindOf(line) == Else
    ensures After(s, before + ([head] + (Lines(body) + (LinesOf(others) + [line]))), effect).stack
         == effect(After(s, before, effect).stack, line)
  {
    hide KindOf, After;
    var s0 := After(s, before, effect);
    AfterBoth(s, before, [head] + (Lines(body) + (LinesOf(others) + [line])), effect);
    AfterConditional(s0, head, body, others, [line], effect);
    var s1 := Step(s0, head, effect);
    var s2 := After(s1, Lines(body), effect);
    var s3 := After(s2, LinesOf(others), effect);
    TextCloses(s1, body, effect);
    BranchesClose(s2, others, effect);
    AfterOne(s3, line, effect);
  }

  /** Well-nested text leaves the stack that it leaves with every else-branch deleted, whatever the
      lines do to the stack, and no conditional open: what is left of it acts line by line, as if there
      were no directives. */
  lemma ElseBranchesDoNotMatter<T>(stack: seq<T>, t: Text, effect: Effect<T>)
    requires WellFormed(t)
    ensures After(State(stack, []), Lines(t), effect) == After(State(stack, []), FirstBranches(t), effect)
    ensures After(State(stack, []), Lines(t), effect) == State(Folded(stack, FirstBranches(t), effect), [])
  {
    hide After, Pruned, OpenedAll, KindOf;
    var s: State<T> := State(stack, []);
    assert Flags(s.ppStack) == [];
    PruningKeeps(s, s, Lines(t), effect);
    PrunedFolds(s, s, Lines(t), effect);
    TextPruned(t, [], []);
    assert Lines(t) + [] == Lines(t);
    FlagsAfter(s, Lines(t), effect);
    NothingLeft();
    assert Pruned(Lines(t), []) == FirstBranches(t);
  }

  lemma NothingLeft()
    ensures Pruned([], []) == [] && OpenedAll([], []) == []
  {
  }

  // How deep.

  function Count(lines: seq<string>, kind: Kind): nat {
    if lines == [] then 0
    else Count(lines[..|lines| - 1], kind) + if KindOf(lines[|lines| - 1]) == kind then 1 else 0
  }

  lemma {:induction false} AfterLast<T>(s: State<T>, lines: seq<string>, line: string, effect: Effect<T>)
    ensures After(s, lines + [line], effect) == Step(After(s, lines, effect), line, effect)
    decreases lines
  {
    if lines == [] {
      assert (lines + [line])[1..] == [];
    } else {
      assert (lines + [line])[1..] == lines[1..] + [line];
      AfterLast(Step(s, lines[0], effect), lines[1..], line, effect);
    }
  }

  /** The preprocessor stack is as deep as conditionals are open. */
  lemma {:induction false} DepthIsOpen<T>(lines: seq<string>, effect: Effect<T>)
    requires forall i :: 0 <= i <= |lines| ==> Count(lines[..i], Endif) <= Count(lines[..i], If)
    ensures |After(State<T>.State([], []), lines, effect).ppStack| == Count(lines, If) - Count(lines, Endif)
  {
    assert lines[..|lines|] == lines;
    if lines != [] {
      var before, last := lines[..|lines| - 1], lines[|lines| - 1];
      assert lines == before + [last];
      assert forall i :: 0 <= i <= |before| ==> before[..i] == lines[..i];
      DepthIsOpen(before, effect);
      AfterLast(State<T>.State([], []), before, last, effect);
      hide KindOf;
      assert Count(lines, Endif) <= Count(lines, If);
    }
  }
}
