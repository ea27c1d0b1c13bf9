/**
 * The kernel shell: splitting a command line into arguments, running the
 * one built-in command, and the per-byte line editing of `readline`.
 */
module Shell {
  import opened Results
  import opened Bytes
  import opened StackVector

  datatype Error = Empty | TooManyArgs

  /** A parsed command: its arguments, the first being the command's path. */
  datatype Command = Command(args: seq<string>)

  /** The number of argument slots `readline` gives `parse`. */
  const ARG_CAPACITY := 64
  /** The size of `readline`'s line buffer. */
  const LINE_CAPACITY := 512

  const BELL: u8 := 7
  const BKSP: u8 := 8
  const LF: u8 := 10
  const CR: u8 := 13
  const SPACE: u8 := 32
  const DEL: u8 := 127

  // ---------------------------------------------------------------------
  // Splitting on spaces

  /** `str::split(' ')`: the pieces between single spaces, empty ones included. */
  function Split(s: string): (pieces: seq<string>)
    ensures |pieces| >= 1
    ensures forall i :: 0 <= i < |pieces| ==> ' ' !in pieces[i]
  {
    if s == [] then [""]
    else
      var rest := Split(s[1..]);
      if s[0] == ' ' then [""] + rest
      else [[s[0]] + rest[0]] + rest[1..]
  }

  /** Puts pieces back together with one space between neighbours. */
  function Join(pieces: seq<string>): string
    requires |pieces| >= 1
  {
    if |pieces| == 1 then pieces[0] else pieces[0] + " " + Join(pieces[1..])
  }

  /** The pieces `parse` keeps: the non-empty ones, in order. */
  function Words(pieces: seq<string>): (ws: seq<string>)
    ensures forall i :: 0 <= i < |ws| ==> ws[i] != [] && ws[i] in pieces
  {
    if pieces == [] then []
    else (if pieces[0] == [] then [] else [pieces[0]]) + Words(pieces[1..])
  }

  /**
   * Keeping the non-empty pieces commutes with concatenation, and a single
   * piece is kept exactly when it is not empty: together these pin the
   * kept pieces down to the non-empty ones, each once, in their order.
   */
  lemma {:induction false} WordsAppend(a: seq<string>, b: seq<string>)
    ensures Words(a + b) == Words(a) + Words(b)
    ensures forall p :: Words([p]) == if p == [] then [] else [p]
  {
    if a == [] {
      assert a + b == b;
    } else {
      assert (a + b)[0] == a[0] && (a + b)[1..] == a[1..] + b;
      WordsAppend(a[1..], b);
      ConcatAssoc(if a[0] == [] then [] else [a[0]], Words(a[1..]), Words(b));
    }
    forall p
      ensures Words([p]) == if p == [] then [] else [p]
    {
      assert [p][1..] == [];
    }
  }

  /** The arguments of a command line. */
  function Arguments(s: string): seq<string>
  {
    Words(Split(s))
  }

  /** Concatenation of all pieces. */
  function Flatten(ws: seq<string>): string
  {
    if ws == [] then [] else ws[0] + Flatten(ws[1..])
  }

  /** A reference definition: the line with its spaces removed. */
  function NonSpace(s: string): string
  {
    if s == [] then []
    else (if s[0] == ' ' then [] else [s[0]]) + NonSpace(s[1..])
  }

  lemma ConcatAssoc<T>(a: seq<T>, b: seq<T>, c: seq<T>)
    ensures (a + b) + c == a + (b + c)
  {
  }

  lemma JoinCons(c: char, p: seq<string>)
    requires |p| >= 1
    ensures Join([[c] + p[0]] + p[1..]) == [c] + Join(p)
  {
    var q := [[c] + p[0]] + p[1..];
    assert q[0] == [c] + p[0] && q[1..] == p[1..];
    if |p| > 1 {
      var tail := " " + Join(p[1..]);
      assert Join(q) == q[0] + tail && Join(p) == p[0] + tail;
      ConcatAssoc([c], p[0], tail);
    }
  }

  /** Splitting on spaces loses nothing: joining the pieces gives the line back. */
  lemma {:induction false} JoinSplit(s: string)
    ensures Join(Split(s)) == s
  {
    if s != [] {
      var rest := Split(s[1..]);
      JoinSplit(s[1..]);
      if s[0] == ' ' {
        assert ([""] + rest)[1..] == rest;
      } else {
        JoinCons(s[0], rest);
      }
      assert s == [s[0]] + s[1..];
    }
  }

  lemma FlattenCons(w: string, ws: seq<string>)
    ensures Flatten([w] + ws) == w + Flatten(ws)
  {
    assert ([w] + ws)[1..] == ws;
  }

  lemma {:induction false} FlattenWords(ps: seq<string>)
    ensures Flatten(Words(ps)) == Flatten(ps)
  {
    if ps != [] {
      FlattenWords(ps[1..]);
      assert ps == [ps[0]] + ps[1..];
      FlattenCons(ps[0], ps[1..]);
      if ps[0] != [] {
        FlattenCons(ps[0], Words(ps[1..]));
      } else {
        assert Words(ps) == Words(ps[1..]);
      }
    }
  }

  lemma {:induction false} FlattenSplit(s: string)
    ensures Flatten(Split(s)) == NonSpace(s)
  {
    if s != [] {
      var rest := Split(s[1..]);
      FlattenSplit(s[1..]);
      if s[0] == ' ' {
        FlattenCons("", rest);
      } else {
        FlattenCons([s[0]] + rest[0], rest[1..]);
        assert rest == [rest[0]] + rest[1..];
        FlattenCons(rest[0], rest[1..]);
      }
    }
  }

  /** The arguments, run together, are exactly the line's characters other than spaces. */
  lemma ArgumentsCharacters(s: string)
    ensures Flatten(Arguments(s)) == NonSpace(s)
  {
    FlattenWords(Split(s));
    FlattenSplit(s);
  }

  lemma {:induction false} NonSpaceEmpty(s: string)
    ensures NonSpace(s) == [] <==> forall i :: 0 <= i < |s| ==> s[i] == ' '
  {
    if s != [] {
      NonSpaceEmpty(s[1..]);
      if s[0] == ' ' {
        forall i | 0 < i < |s| && s[1..][i - 1] == ' ' ensures s[i] == ' ' {}
      }
    }
  }

  lemma FlattenNonEmpty(ws: seq<string>)
    requires forall i :: 0 <= i < |ws| ==> ws[i] != []
    ensures Flatten(ws) == [] <==> ws == []
  {
  }

  /** A line has no arguments exactly when it is empty or all spaces. */
  lemma ArgumentsEmptyIffBlank(s: string)
    ensures Arguments(s) == [] <==> forall i :: 0 <= i < |s| ==> s[i] == ' '
  {
    ArgumentsCharacters(s);
    FlattenNonEmpty(Arguments(s));
    NonSpaceEmpty(s);
  }

  /** A line without spaces is one piece, and, when not empty, one argument. */
  lemma {:induction false} SplitNoSpace(s: string)
    requires ' ' !in s
    ensures Split(s) == [s]
    ensures s != [] ==> Arguments(s) == [s]
  {
    if s != [] {
      assert ' ' !in s[1..];
      SplitNoSpace(s[1..]);
      assert s == [s[0]] + s[1..];
      assert [s][1..] == [];
      assert Words([s]) == [s] + Words([]);
    }
  }

  /** Every argument is non-empty and holds no space. */
  lemma ArgumentsAreWords(s: string)
    ensures forall i :: 0 <= i < |Arguments(s)| ==> Arguments(s)[i] != [] && ' ' !in Arguments(s)[i]
  {
  }

  // ---------------------------------------------------------------------
  // Parsing and running a command

  /** What `parse` yields for line `s` with `capacity` argument slots. */
  function ParseResult(s: string, capacity: nat): Result<Command, Error>
  {
    var args := Arguments(s);
    if |args| > capacity then Err(TooManyArgs)
    else if args == [] then Err(Empty)
    else Ok(Command(args))
  }

  /** `Command::path`: the first argument. */
  function Path(cmd: Command): string
    requires |cmd.args| >= 1
  {
    cmd.args[0]
  }

  /** `Command::execute`: `echo` is the only command there is, and it always succeeds. */
  function Execute(cmd: Command): (ran: bool)
    requires |cmd.args| >= 1
    ensures ran <==> Path(cmd) == "echo"
  {
    match Path(cmd)
    case "echo" => true
    case _ => false
  }

  /**
   * The outcomes of `parse`: too many arguments, none at all (a blank
   * line), or a command holding every argument, whose path is the first.
   */
  lemma ParseOutcomes(s: string, capacity: nat)
    ensures ParseResult(s, capacity) == Err(TooManyArgs) <==> |Arguments(s)| > capacity
    ensures ParseResult(s, capacity) == Err(Empty) <==> forall i :: 0 <= i < |s| ==> s[i] == ' '
    ensures ParseResult(s, capacity).Ok? <==> 1 <= |Arguments(s)| <= capacity
    ensures ParseResult(s, capacity).Ok? ==>
      var cmd := ParseResult(s, capacity).value;
      cmd.args == Arguments(s) && 1 <= |cmd.args| <= capacity &&
      Path(cmd) != [] && ' ' !in Path(cmd) && Flatten(cmd.args) == NonSpace(s)
  {
    ArgumentsEmptyIffBlank(s);
    ArgumentsCharacters(s);
  }

  /**
   * `Command::parse`: pushes each argument onto a vector over `buf`,
   * stopping with `TooManyArgs` when it is full; an empty vector at the end
   * is `Empty`.
   */
  method Parse(s: string, buf: array<string>) returns (r: Result<Command, Error>)
    modifies buf
    ensures r == ParseResult(s, buf.Length)
    ensures r.Ok? ==> buf[..|r.value.args|] == r.value.args
  {
    var args := new StackVec.New(buf);
    var words := Arguments(s);
    for i := 0 to |words|
      invariant args.Valid() && args.storage == buf
      invariant args.Contents() == words[..i]
    {
      var pushed := args.Push(words[i]);
      if pushed.Err? {
        return Err(TooManyArgs);
      }
    }
    assert words[..|words|] == words;
    if args.IsEmpty() {
      return Err(Empty);
    }
    return Ok(Command(buf[..args.Len()]));
  }

  // ---------------------------------------------------------------------
  // Line editing in `readline`

  /** The line after one byte, and what goes back to the console. */
  datatype Edit = Edit(line: seq<u8>, echo: seq<u8>)

  /**
   * One byte of `readline`, as written: backspace or delete erases the last
   * byte (or rings the bell on an empty line); every other byte, carriage
   * return and line feed included, is appended and echoed (or rings the
   * bell on a full line).
   */
  function EditStep(line: seq<u8>, capacity: nat, b: u8): (e: Edit)
    requires |line| <= capacity
    ensures |e.line| <= capacity
    ensures e.line == line <==> e.echo == [BELL] && (b != BELL || |line| == capacity || b == BKSP || b == DEL)
  {
    if b == BKSP || b == DEL then
      if line == [] then Edit(line, [BELL])
      else Edit(line[..|line| - 1], [BKSP, SPACE, BKSP])
    else
      if |line| == capacity then Edit(line, [BELL])
      else Edit(line + [b], [b])
  }

  /** Bytes in order; the echoes are concatenated. */
  function EditAll(line: seq<u8>, capacity: nat, input: seq<u8>): (e: Edit)
    requires |line| <= capacity
    ensures |e.line| <= capacity
    decreases |input|
  {
    if input == [] then Edit(line, [])
    else
      var first := EditStep(line, capacity, input[0]);
      var rest := EditAll(first.line, capacity, input[1..]);
      Edit(rest.line, first.echo + rest.echo)
  }

  /** Erasing right after typing an ordinary byte restores the line. */
  lemma EraseUndoesType(line: seq<u8>, capacity: nat, b: u8, erase: u8)
    requires |line| < capacity && b != BKSP && b != DEL && (erase == BKSP || erase == DEL)
    ensures EditStep(EditStep(line, capacity, b).line, capacity, erase) == Edit(line, [BKSP, SPACE, BKSP])
  {
    assert (line + [b])[..|line|] == line;
  }

  /** Typing only ordinary bytes into a line with room for them appends them. */
  lemma {:induction false} TypingAppends(line: seq<u8>, capacity: nat, input: seq<u8>)
    requires |line| + |input| <= capacity
    requires forall j :: 0 <= j < |input| ==> input[j] != BKSP && input[j] != DEL
    ensures EditAll(line, capacity, input) == Edit(line + input, input)
    decreases |input|
  {
    if input != [] {
      var b, more := input[0], input[1..];
      assert input == [b] + more;
      assert EditStep(line, capacity, b) == Edit(line + [b], [b]);
      TypingAppends(line + [b], capacity, more);
      ConcatAssoc(line, [b], more);
    }
  }

  /** Backspace or delete on an empty line keeps it empty and rings the bell. */
  lemma EraseOnEmptyRings(capacity: nat, erase: u8)
    requires erase == BKSP || erase == DEL
    ensures EditStep([], capacity, erase) == Edit([], [BELL])
  {
  }

  /** Any other byte on a full line leaves the line as it is and rings the bell. */
  lemma FullLineRings(line: seq<u8>, b: u8)
    requires b != BKSP && b != DEL
    ensures EditStep(line, |line|, b) == Edit(line, [BELL])
  {
  }

  /** As written, carriage return and line feed are ordinary bytes: stored and echoed, never ending the line. */
  lemma NewlineIsOrdinaryAsWritten(line: seq<u8>, capacity: nat, b: u8)
    requires |line| < capacity && (b == CR || b == LF)
    ensures EditStep(line, capacity, b) == Edit(line + [b], [b])
  {
  }

  /** The line bytes as text: `from_utf8(..).unwrap_or_default()`, for ASCII lines. */
  function Text(bytes: seq<u8>): (s: string)
    ensures (forall i :: 0 <= i < |bytes| ==> bytes[i] < 128) ==>
              |s| == |bytes| && forall i :: 0 <= i < |s| ==> s[i] as int == bytes[i] as int
    ensures (exists i :: 0 <= i < |bytes| && bytes[i] >= 128) ==> s == ""
  {
    if forall i :: 0 <= i < |bytes| ==> bytes[i] < 128
    then seq(|bytes|, i requires 0 <= i < |bytes| => bytes[i] as char)
    else ""
  }

  /**
   * `readline`'s byte loop as written, over the bytes the console delivers:
   * each byte edits a 512-byte line buffer. There is no way out of the loop,
   * so after any input there is still no command.
   */
  method Readline(input: seq<u8>) returns (line: seq<u8>, echo: seq<u8>)
    ensures Edit(line, echo) == EditAll([], LINE_CAPACITY, input)
  {
    var buf := new u8[LINE_CAPACITY](_ => 0);
    var stack := new StackVec.New(buf);
    echo := [];
    for i := 0 to |input|
      invariant stack.Valid() && stack.storage == buf && fresh(stack)
      invariant EditAll([], LINE_CAPACITY, input) ==
        var rest := EditAll(stack.Contents(), LINE_CAPACITY, input[i..]);
        Edit(rest.line, echo + rest.echo)
    {
      ghost var before := stack.Contents();
      var out := ReadlineStep(stack, input[i]);
      ghost var rest := EditAll(stack.Contents(), LINE_CAPACITY, input[i + 1..]);
      assert EditAll(before, LINE_CAPACITY, input[i..]) == Edit(rest.line, out + rest.echo) by {
        assert input[i..][0] == input[i] && input[i..][1..] == input[i + 1..];
      }
      assert echo + (out + rest.echo) == (echo + out) + rest.echo;
      echo := echo + out;
    }
    line := buf[..stack.Len()];
  }

  /** One pass of the byte loop on the line buffer `stack`. */
  method ReadlineStep(stack: StackVec<u8>, b: u8) returns (echo: seq<u8>)
    requires stack.Valid()
    modifies stack, stack.storage
    ensures stack.Valid()
    ensures Edit(stack.Contents(), echo) == EditStep(old(stack.Contents()), stack.Capacity(), b)
  {
    if b == BKSP || b == DEL {
      var popped := stack.Pop();
      if popped.None? {
        echo := [BELL];
      } else {
        echo := [BKSP, SPACE, BKSP];
      }
    } else {
      var pushed := stack.Push(b);
      if pushed.Err? {
        echo := [BELL];
      } else {
        echo := [b];
      }
    }
  }

  /**
   * One byte of the loop on the whole 512-byte buffer and the vector's
   * length: a push writes slot `len`, a pop only shortens the vector, so
   * popped bytes stay in the buffer.
   */
  function BufferStep(buf: seq<u8>, len: nat, b: u8): (r: (seq<u8>, nat))
    requires len <= |buf|
    ensures |r.0| == |buf| && r.1 <= |buf|
    ensures r.0[..r.1] == EditStep(buf[..len], |buf|, b).line
    ensures forall i :: r.1 <= i < |buf| && len <= i ==> r.0[i] == buf[i]
    ensures forall i :: 0 <= i < |buf| && !(r.1 == len + 1 && i == len) ==> r.0[i] == buf[i]
  {
    if b == BKSP || b == DEL then
      if len == 0 then (buf, 0) else (buf, len - 1)
    else if len == |buf| then (buf, len)
    else
      assert buf[len := b][..len + 1] == buf[..len] + [b];
      (buf[len := b], len + 1)
  }

  /**
   * `readline` with only the arm order corrected: CR or LF ends the loop,
   * and, as at line 113, the text handed to `parse` is the whole buffer
   * `stack.as_slice()`, not the `len` bytes of the line.
   */
  function ReadlineOrderFixed(buf: seq<u8>, len: nat, input: seq<u8>): Option<Result<Command, Error>>
    requires len <= |buf|
    decreases |input|
  {
    if input == [] then None
    else if input[0] == CR || input[0] == LF then Some(ParseResult(Text(buf), ARG_CAPACITY))
    else
      var next := BufferStep(buf, len, input[0]);
      ReadlineOrderFixed(next.0, next.1, input[1..])
  }

  /**
   * With only the arm order corrected, `echo` and CR on a fresh zeroed
   * buffer parse to one argument of 512 characters, `echo` followed by 508
   * NUL characters, which is not the `echo` command.
   */
  lemma EchoLineOrderFixedAsWritten()
    ensures var r := ReadlineOrderFixed(seq(LINE_CAPACITY, _ => 0), 0, [101, 99, 104, 111, CR]);
            && r.Some? && r.value.Ok?
            && |r.value.value.args| == 1
            && |Path(r.value.value)| == LINE_CAPACITY
            && Path(r.value.value)[..4] == "echo"
            && !Execute(r.value.value)
  {
    var zeros: seq<u8> := seq(LINE_CAPACITY, _ => 0);
    var buf := TypeEchoIntoBuffer(zeros);
    assert forall i :: 4 <= i < |buf| ==> buf[i] == zeros[i] == 0;
    ParseEchoBuffer(buf);
  }

  /** Typing `echo` then CR into buffer `z` reaches the CR with `echo` in slots 0 to 3 and the rest of `z` after. */
  lemma TypeEchoIntoBuffer(z: seq<u8>) returns (buf: seq<u8>)
    requires |z| == LINE_CAPACITY
    ensures |buf| == LINE_CAPACITY && buf[0] == 101 && buf[1] == 99 && buf[2] == 104 && buf[3] == 111
    ensures forall i :: 4 <= i < |buf| ==> buf[i] == z[i]
    ensures ReadlineOrderFixed(z, 0, [101, 99, 104, 111, CR]) == Some(ParseResult(Text(buf), ARG_CAPACITY))
  {
    var b1 := z[0 := 101];
    var b2 := b1[1 := 99];
    var b3 := b2[2 := 104];
    buf := b3[3 := 111];
    TypeStep(z, 0, 101, [99, 104, 111, CR]);
    TypeStep(b1, 1, 99, [104, 111, CR]);
    TypeStep(b2, 2, 104, [111, CR]);
    TypeStep(b3, 3, 111, [CR]);
  }

  /** An ordinary byte with room in the buffer is written at slot `len`, and the loop goes on. */
  lemma TypeStep(buf: seq<u8>, len: nat, b: u8, rest: seq<u8>)
    requires len < |buf| && b != BKSP && b != DEL && b != CR && b != LF
    ensures ReadlineOrderFixed(buf, len, [b] + rest) == ReadlineOrderFixed(buf[len := b], len + 1, rest)
  {
    assert ([b] + rest)[0] == b && ([b] + rest)[1..] == rest;
  }

  /** The buffer holding `echo` and then NULs parses to the one argument that is its whole text. */
  lemma ParseEchoBuffer(buf: seq<u8>)
    requires |buf| == LINE_CAPACITY && buf[0] == 101 && buf[1] == 99 && buf[2] == 104 && buf[3] == 111
    requires forall i :: 4 <= i < |buf| ==> buf[i] == 0
    ensures var r := ParseResult(Text(buf), ARG_CAPACITY);
            && r.Ok? && |r.value.args| == 1
            && |Path(r.value)| == LINE_CAPACITY
            && Path(r.value)[..4] == "echo"
            && !Execute(r.value)
  {
    assert forall i :: 0 <= i < |buf| ==> buf[i] < 128;
    var s := Text(buf);
    assert |s| == LINE_CAPACITY;
    assert ' ' !in s by {
      forall i | 0 <= i < |s| ensures s[i] != ' ' {
        assert s[i] as int == buf[i] as int;
      }
    }
    SplitNoSpace(s);
    assert s[..4] == "echo" by {
      assert s[0] == 'e' && s[1] == 'c' && s[2] == 'h' && s[3] == 'o';
    }
  }

  /**
   * `readline` as evidently intended: carriage return or line feed ends the
   * line, whose bytes (not the rest of the buffer) are parsed; `None` means
   * the input ran out first.
   */
  function ReadlineIntended(line: seq<u8>, input: seq<u8>): Option<Result<Command, Error>>
    requires |line| <= LINE_CAPACITY
    decreases |input|
  {
    if input == [] then None
    else if input[0] == CR || input[0] == LF then Some(ParseResult(Text(line), ARG_CAPACITY))
    else ReadlineIntended(EditStep(line, LINE_CAPACITY, input[0]).line, input[1..])
  }

  /**
   * The intended `readline` parses exactly the line edited from the bytes
   * before the first carriage return or line feed, and gives nothing while
   * none has arrived.
   */
  lemma {:induction false} ReadlineSubmitsAtFirstNewline(line: seq<u8>, input: seq<u8>, k: nat)
    requires |line| <= LINE_CAPACITY
    requires k <= |input|
    requires forall j :: 0 <= j < k ==> input[j] != CR && input[j] != LF
    ensures k < |input| && (input[k] == CR || input[k] == LF) ==>
      ReadlineIntended(line, input) == Some(ParseResult(Text(EditAll(line, LINE_CAPACITY, input[..k]).line), ARG_CAPACITY))
    ensures k == |input| ==> ReadlineIntended(line, input) == None
    decreases k
  {
    if k > 0 {
      var next := EditStep(line, LINE_CAPACITY, input[0]).line;
      ReadlineSubmitsAtFirstNewline(next, input[1..], k - 1);
      assert input[..k][1..] == input[1..][..k - 1];
    } else if k < |input| {
      assert input[..0] == [];
    }
  }

  lemma EchoText()
    ensures Text([101, 99, 104, 111]) == "echo"
  {
    var t := Text([101, 99, 104, 111]);
    assert |t| == 4 && t[0] == 'e' && t[1] == 'c' && t[2] == 'h' && t[3] == 'o';
  }

  lemma EchoParses()
    ensures ParseResult("echo", ARG_CAPACITY) == Ok(Command(["echo"]))
  {
    SplitNoSpace("echo");
  }

  /**
   * The line `echo` followed by a carriage return: as written it is merely
   * stored, return byte and all; as intended it runs `echo`.
   */
  lemma EchoLineExample()
    ensures EditAll([], LINE_CAPACITY, [101, 99, 104, 111, CR]).line == [101, 99, 104, 111, CR]
    ensures ReadlineIntended([], [101, 99, 104, 111, CR]) == Some(Ok(Command(["echo"])))
  {
    var input: seq<u8> := [101, 99, 104, 111, CR];
    TypingAppends([], LINE_CAPACITY, input);
    EchoLineIntended(input);
  }

  lemma EchoLineIntended(input: seq<u8>)
    requires input == [101, 99, 104, 111, CR]
    ensures ReadlineIntended([], input) == Some(Ok(Command(["echo"])))
  {
    var word := input[..4];
    assert word == [101, 99, 104, 111];
    ReadlineSubmitsAtFirstNewline([], input, 4);
    TypingAppends([], LINE_CAPACITY, word);
    var line := EditAll([], LINE_CAPACITY, word).line;
    assert line == word;
    EchoText();
    assert Text(line) == "echo";
    EchoParses();
  }
}
