/** Command-line parsing: a program name and up to sixteen arguments, each at most
    63 characters, separated by spaces. */
module Args {
  import opened Machine

  const MAX_ARGS := 16
  const MAX_ARG_LEN := 64
  const PIECE := MAX_ARG_LEN - 1

  // ---------- what a line parses to ----------

  /** Number of leading spaces. */
  function Spaces(s: string): (k: nat)
    ensures k <= |s| && (forall i :: 0 <= i < k ==> s[i] == ' ') && (k < |s| ==> s[k] != ' ')
  {
    if s == [] || s[0] != ' ' then 0 else 1 + Spaces(s[1..])
  }

  /** Length of the leading word, cut at `max`. */
  function WordLen(s: string, max: nat): (k: nat)
    ensures k <= |s| && k <= max && (forall i :: 0 <= i < k ==> s[i] != ' ')
    ensures k < |s| && k < max ==> s[k] == ' '
  {
    if s == [] || s[0] == ' ' || max == 0 then 0 else 1 + WordLen(s[1..], max - 1)
  }

  /** The arguments in `s`, at most `room` of them. */
  function ParseArgs(s: string, room: nat): seq<string>
    decreases |s|, room
  {
    if room == 0 then []
    else
      var t := s[Spaces(s)..];
      if t == [] then []
      else
        var k := WordLen(t, PIECE);
        [t[..k]] + ParseArgs(t[k..], room - 1)
  }

  function Parse(line: string): (string, seq<string>) {
    var t := line[Spaces(line)..];
    var k := WordLen(t, PIECE);
    (t[..k], ParseArgs(t[k..], MAX_ARGS))
  }

  // ---------- conservation ----------

  function NonSpaces(s: string): string {
    if s == [] then [] else (if s[0] == ' ' then [] else [s[0]]) + NonSpaces(s[1..])
  }

  function Concat(pieces: seq<string>): string {
    if pieces == [] then [] else pieces[0] + Concat(pieces[1..])
  }

  predicate PieceOk(s: string) {
    0 < |s| <= 63 && forall i :: 0 <= i < |s| ==> s[i] != ' '
  }

  lemma {:induction false} NonSpacesConcat(x: string, y: string)
    ensures NonSpaces(x + y) == NonSpaces(x) + NonSpaces(y)
  {
    if x == [] {
      assert x + y == y;
    } else {
      assert (x + y)[1..] == x[1..] + y;
      NonSpacesConcat(x[1..], y);
    }
  }

  lemma {:induction false} NonSpacesOfSpaces(s: string)
    requires forall i :: 0 <= i < |s| ==> s[i] == ' '
    ensures NonSpaces(s) == []
  {
    if s != [] {
      NonSpacesOfSpaces(s[1..]);
    }
  }

  lemma {:induction false} NonSpacesOfWord(s: string)
    requires forall i :: 0 <= i < |s| ==> s[i] != ' '
    ensures NonSpaces(s) == s
  {
    if s != [] {
      NonSpacesOfWord(s[1..]);
      assert [s[0]] + s[1..] == s;
    }
  }

  /** Taking leading spaces and then a word off a string. */
  lemma TakeWord(s: string, k: nat)
    requires var t := s[Spaces(s)..]; k <= |t| && forall i :: 0 <= i < k ==> t[i] != ' '
    ensures var t := s[Spaces(s)..]; NonSpaces(s) == t[..k] + NonSpaces(t[k..])
  {
    hide NonSpaces, Spaces;
    var n := Spaces(s);
    var t := s[n..];
    assert s == s[..n] + t && t == t[..k] + t[k..];
    NonSpacesConcat(s[..n], t);
    NonSpacesOfSpaces(s[..n]);
    NonSpacesConcat(t[..k], t[k..]);
    NonSpacesOfWord(t[..k]);
    assert [] + NonSpaces(t) == NonSpaces(t);
  }

  /** The arguments spell out the text, in order, up to where the room ran out. */
  lemma {:induction false} ArgsConserve(s: string, room: nat)
    ensures Concat(ParseArgs(s, room)) <= NonSpaces(s) && |ParseArgs(s, room)| <= room
    ensures |ParseArgs(s, room)| < room ==> Concat(ParseArgs(s, room)) == NonSpaces(s)
    ensures forall i :: 0 <= i < |ParseArgs(s, room)| ==> PieceOk(ParseArgs(s, room)[i])
    decreases |s|, room
  {
    hide ParseArgs, Spaces, WordLen, NonSpaces, PieceOk;
    var t := s[Spaces(s)..];
    if room == 0 || t == [] {
      ArgsNone(s, room);
      TakeWord(s, 0);
    } else {
      var k := WordLen(t, PIECE);
      var word, rest := t[..k], ParseArgs(t[k..], room - 1);
      ArgsStep(s, t, word, t[k..], room);
      ArgsConserve(t[k..], room - 1);
      TakeWord(s, k);
      WordIsPiece(t);
      ConcatCons(word, rest);
      PrefixCons(word, Concat(rest), NonSpaces(t[k..]));
    }
  }

  lemma ArgsNone(s: string, room: nat)
    requires room == 0 || s[Spaces(s)..] == []
    ensures ParseArgs(s, room) == []
    ensures s[Spaces(s)..] == [] ==> NonSpaces(s) == []
  {
    NonSpacesOfSpaces(s[..Spaces(s)]);
    assert s == s[..Spaces(s)] + s[Spaces(s)..];
    if s[Spaces(s)..] == [] {
      assert s == s[..Spaces(s)];
    }
  }

  lemma WordIsPiece(t: string)
    requires t != [] && t[0] != ' '
    ensures PieceOk(t[..WordLen(t, PIECE)])
  {
  }

  lemma ConcatCons(word: string, rest: seq<string>)
    ensures Concat([word] + rest) == word + Concat(rest)
  {
    assert ([word] + rest)[1..] == rest;
  }

  lemma PrefixCons(word: string, x: string, y: string)
    requires x <= y
    ensures word + x <= word + y
  {
  }

  /** Program and arguments together are a prefix of the line's non-space
      characters, and all of them unless sixteen arguments were stored. */
  lemma ParseConserves(line: string)
    ensures var (program, args) := Parse(line);
      && |args| <= 16 && |program| <= 63 && ' ' !in program
      && (forall i :: 0 <= i < |args| ==> PieceOk(args[i]))
      && program + Concat(args) <= NonSpaces(line)
      && (|args| < 16 ==> program + Concat(args) == NonSpaces(line))
  {
    hide ParseArgs, Spaces, WordLen, NonSpaces, PieceOk;
    var t := line[Spaces(line)..];
    var k := WordLen(t, PIECE);
    TakeWord(line, k);
    ArgsConserve(t[k..], MAX_ARGS);
    PrefixCons(t[..k], Concat(ParseArgs(t[k..], MAX_ARGS)), NonSpaces(t[k..]));
  }

  // ---------- parsing back ----------

  /** `gap` spaces. */
  function Gap(gap: nat): string {
    seq(gap, _ => ' ')
  }

  /** Arguments written out, each after its own run of spaces, and `tail` spaces at the end. */
  function Written(gaps: seq<nat>, args: seq<string>, tail: nat): string
    requires |gaps| == |args|
  {
    if args == [] then Gap(tail) else Gap(gaps[0]) + args[0] + Written(gaps[1..], args[1..], tail)
  }

  lemma SpacesExactly(gap: nat, rest: string)
    requires rest == [] || rest[0] != ' '
    ensures Spaces(Gap(gap) + rest) == gap && (Gap(gap) + rest)[gap..] == rest
  {
    var s := Gap(gap) + rest;
    assert forall i :: 0 <= i < gap ==> s[i] == ' ';
    assert rest != [] ==> s[gap] == rest[0];
  }

  lemma WordExactly(word: string, rest: string)
    requires PieceOk(word) && (rest == [] || rest[0] == ' ')
    ensures WordLen(word + rest, PIECE) == |word|
  {
    var s := word + rest;
    assert forall i :: 0 <= i < |word| ==> s[i] == word[i];
    assert rest != [] ==> s[|word|] == rest[0];
  }

  /** What follows an argument is the end of the line or a space. */
  lemma WrittenStarts(gaps: seq<nat>, args: seq<string>, tail: nat)
    requires |gaps| == |args| && forall i :: 0 <= i < |gaps| ==> gaps[i] > 0
    ensures var s := Written(gaps, args, tail); s == [] || s[0] == ' '
  {
    if args != [] {
      assert Gap(gaps[0])[0] == ' ';
    }
  }

  lemma {:induction false} ArgsParseBack(gaps: seq<nat>, args: seq<string>, tail: nat, room: nat)
    requires |gaps| == |args| <= room && forall i :: 0 <= i < |gaps| ==> gaps[i] > 0
    requires forall i :: 0 <= i < |args| ==> PieceOk(args[i])
    ensures ParseArgs(Written(gaps, args, tail), room) == args
    decreases |args|
  {
    hide ParseArgs, Spaces, WordLen, Gap, PieceOk, Written;
    var s := Written(gaps, args, tail);
    WrittenIs(gaps, args, tail);
    if args == [] {
      SpacesExactly(tail, []);
      assert Gap(tail) + [] == s;
      ArgsNone(s, room);
    } else {
      var word, rest := args[0], Written(gaps[1..], args[1..], tail);
      WrittenStarts(gaps[1..], args[1..], tail);
      WordThenRest(gaps[0], word, rest);
      ArgsStep(s, word + rest, word, rest, room);
      ArgsParseBack(gaps[1..], args[1..], tail, room - 1);
      assert args == [word] + args[1..];
    }
  }

  lemma WrittenIs(gaps: seq<nat>, args: seq<string>, tail: nat)
    requires |gaps| == |args|
    ensures Written(gaps, args, tail) ==
      if args == [] then Gap(tail) else Gap(gaps[0]) + (args[0] + Written(gaps[1..], args[1..], tail))
  {
  }

  lemma WordThenRest(gap: nat, word: string, rest: string)
    requires PieceOk(word) && (rest == [] || rest[0] == ' ')
    ensures var s, t := Gap(gap) + (word + rest), word + rest;
      && s[Spaces(s)..] == t && t != []
      && WordLen(t, PIECE) == |word| && t[..|word|] == word && t[|word|..] == rest
  {
    SpacesExactly(gap, word + rest);
    WordExactly(word, rest);
  }

  /** Any program and up to sixteen arguments of legal length, joined by runs of
      spaces, parse back exactly. */
  lemma ParsesBack(lead: nat, program: string, gaps: seq<nat>, args: seq<string>, tail: nat)
    requires PieceOk(program) && |gaps| == |args| <= 16
    requires forall i :: 0 <= i < |args| ==> PieceOk(args[i]) && gaps[i] > 0
    ensures Parse(Gap(lead) + (program + Written(gaps, args, tail))) == (program, args)
  {
    hide ParseArgs, Spaces, WordLen, Gap, Written;
    var rest := Written(gaps, args, tail);
    WrittenStarts(gaps, args, tail);
    WordThenRest(lead, program, rest);
    ArgsParseBack(gaps, args, tail, MAX_ARGS);
  }

  /** A word longer than a piece is cut, and its tail read as further arguments. */
  lemma LongWordIsCut(word: string)
    requires |word| == 64 && forall i :: 0 <= i < |word| ==> word[i] != ' '
    ensures Parse(word) == (word[..63], [word[63..]])
  {
    var first, last := word[..PIECE], word[PIECE..];
    assert Spaces(word) == 0 && word[0..] == word;
    assert WordLen(word, PIECE) == PIECE;
    assert Spaces(last) == 0 && last[0..] == last && WordLen(last, PIECE) == 1;
    ArgsStep(last, last, last, [], MAX_ARGS);
    ArgsEnd([], MAX_ARGS - 1);
    assert [last] + [] == [last];
  }

  // ---------- the parser ----------

  /** `while (cmdline[i] == ' ') i++`. */
  method SkipSpaces(cmdline: seq<char>, ghost line: string, from: nat) returns (i: nat)
    requires CString(cmdline, line, '\0') && from <= |line|
    ensures i <= |line| && i == from + Spaces(line[from..])
  {
    i := from;
    CharAt(cmdline, line, '\0', i);
    while cmdline[i] == ' '
      invariant from <= i <= |line| && i < |cmdline| && from + Spaces(line[from..]) == i + Spaces(line[i..])
      invariant cmdline[i] == (if i < |line| then line[i] else '\0')
      decreases |line| - i
    {
      assert line[i..][1..] == line[i + 1..];
      i := i + 1;
      CharAt(cmdline, line, '\0', i);
    }
  }

  /** Copies a word of at most 63 characters. */
  method CopyWord(cmdline: seq<char>, ghost line: string, from: nat) returns (word: string, i: nat)
    requires CString(cmdline, line, '\0') && from <= |line|
    ensures var k := WordLen(line[from..], PIECE); i == from + k <= |line| && word == line[from..i]
  {
    hide CString, WordLen;
    i, word := from, [];
    CharAt(cmdline, line, '\0', i);
    while cmdline[i] != '\0' && cmdline[i] != ' ' && |word| < MAX_ARG_LEN - 1
      invariant from <= i <= |line| && i < |cmdline| && word == line[from..i] && |word| <= PIECE
      invariant WordLen(line[from..], PIECE) == |word| + WordLen(line[i..], PIECE - |word|)
      invariant cmdline[i] == (if i < |line| then line[i] else '\0') && (cmdline[i] == '\0' <==> i == |line|)
      decreases |line| - i
    {
      NextLetter(line, i, PIECE - |word|);
      word := word + [cmdline[i]];
      i := i + 1;
      CharAt(cmdline, line, '\0', i);
    }
    WordEnds(line, i, PIECE - |word|);
  }

  lemma NextLetter(line: string, i: nat, max: nat)
    requires i < |line| && line[i] != ' ' && max > 0
    ensures WordLen(line[i..], max) == 1 + WordLen(line[i + 1..], max - 1)
  {
    assert line[i..][1..] == line[i + 1..];
  }

  lemma WordEnds(line: string, i: nat, max: nat)
    requires i <= |line| && (max == 0 || i == |line| || line[i] == ' ')
    ensures WordLen(line[i..], max) == 0
  {
  }

  /** `parse_command_line`, on a buffer holding the C string `line`. */
  method ParseCommandLine(cmdline: seq<char>, ghost line: string) returns (program: string, args: seq<string>)
    requires CString(cmdline, line, '\0')
    ensures (program, args) == Parse(line)
  {
    hide CString, WordLen, Spaces, ParseArgs;
    args := [];
    var i := SkipSpaces(cmdline, line, 0);
    assert line[0..] == line;
    ghost var start := i;
    program, i := CopyWord(cmdline, line, i);
    ParseBegins(line, start, program, i);
    CharAt(cmdline, line, '\0', i);
    while cmdline[i] != '\0' && |args| < MAX_ARGS
      invariant i <= |line| && i < |cmdline| && (cmdline[i] == '\0' <==> i == |line|) && |args| <= MAX_ARGS
      invariant Parse(line) == (program, args + ParseArgs(line[i..], MAX_ARGS - |args|))
      decreases |line| - i
    {
      ghost var from, done := i, args;
      i := SkipSpaces(cmdline, line, i);
      CharAt(cmdline, line, '\0', i);
      if cmdline[i] == '\0' {
        NoMoreArgs(line, from, args);
        return;
      }
      var word, j := CopyWord(cmdline, line, i);
      NextArg(line, from, i, j, word, done);
      if |word| > 0 {
        args := args + [word];
      }
      i := j;
      CharAt(cmdline, line, '\0', i);
    }
    ArgsEnd(line[i..], MAX_ARGS - |args|);
    assert args + [] == args;
  }

  lemma NoMoreArgs(line: string, from: nat, done: seq<string>)
    requires from <= |line| && from + Spaces(line[from..]) == |line| && |done| < MAX_ARGS
    ensures done + ParseArgs(line[from..], MAX_ARGS - |done|) == done
  {
    ArgsNone(line[from..], MAX_ARGS - |done|);
  }

  lemma NextArg(line: string, from: nat, i: nat, j: nat, word: string, done: seq<string>)
    requires from <= i < |line| && i == from + Spaces(line[from..]) && |done| < MAX_ARGS
    requires j == i + WordLen(line[i..], PIECE) <= |line| && word == line[i..j]
    ensures |word| > 0
    ensures done + ParseArgs(line[from..], MAX_ARGS - |done|)
         == done + [word] + ParseArgs(line[j..], MAX_ARGS - |done + [word]|)
  {
    hide WordLen, Spaces, ParseArgs;
    assert line[from..][i - from..] == line[i..];
    assert line[i..][j - i..] == line[j..] && line[i..][..j - i] == word;
    ArgsStep(line[from..], line[i..], word, line[j..], MAX_ARGS - |done|);
  }

  lemma ParseBegins(line: string, start: nat, program: string, i: nat)
    requires start == Spaces(line) && i == start + WordLen(line[start..], PIECE) && program == line[start..i]
    ensures Parse(line) == (program, [] + ParseArgs(line[i..], MAX_ARGS))
  {
    hide ParseArgs, WordLen, Spaces;
    var t := line[start..];
    assert t[..i - start] == program && t[i - start..] == line[i..];
    assert [] + ParseArgs(line[i..], MAX_ARGS) == ParseArgs(line[i..], MAX_ARGS);
  }

  lemma ArgsStep(s: string, t: string, word: string, rest: string, room: nat)
    requires room > 0 && t == s[Spaces(s)..] && t != []
    requires var k := WordLen(t, PIECE); word == t[..k] && rest == t[k..]
    ensures |word| > 0 && ParseArgs(s, room) == [word] + ParseArgs(rest, room - 1)
  {
  }

  lemma ArgsEnd(s: string, room: nat)
    requires room == 0 || s == []
    ensures ParseArgs(s, room) == []
  {
  }
}
