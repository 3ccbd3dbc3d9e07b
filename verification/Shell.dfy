/** kernel/shell.c: the in-place command line parser, numbers, and the line history. */
module Shell {
  import opened Common

  const LINE_MAX := 256
  const MAX_ARGS := 16
  const HISTORY_SIZE := 16

  // ---- what a command line means ----

  /** How many spaces the text starts with. */
  function Spaces(s: string): (k: nat)
    ensures k <= |s|
    ensures forall i | 0 <= i < k :: s[i] == ' '
    ensures k < |s| ==> s[k] != ' '
  {
    if s == "" || s[0] != ' ' then 0 else 1 + Spaces(s[1..])
  }

  /** Where `c` first occurs, or the end of the text. */
  function Until(s: string, c: char): (k: nat)
    ensures k <= |s|
    ensures forall i | 0 <= i < k :: s[i] != c
    ensures k < |s| ==> s[k] == c
  {
    if s == "" || s[0] == c then 0 else 1 + Until(s[1..], c)
  }

  lemma {:induction false} UntilIs(s: string, c: char, k: nat)
    requires k <= |s| && (forall i | 0 <= i < k :: s[i] != c) && (k < |s| ==> s[k] == c)
    ensures Until(s, c) == k
  {
    if k > 0 {
      assert forall i | 0 <= i < k - 1 :: s[1..][i] == s[i + 1];
      UntilIs(s[1..], c, k - 1);
    }
  }

  /**
   * The first `room` arguments of a command line: words between spaces, or text between double quotes. A word that
   * takes the last place keeps everything after it, because the parser stops before it cuts the word off.
   */
  function Tokens(s: string, room: nat): (args: seq<string>)
    ensures |args| <= room
    decreases room
  {
    var t := s[Spaces(s)..];
    if room == 0 || t == "" then []
    else if t[0] == '"' then
      var u := t[1..];
      var e := Until(u, '"');
      [u[..e]] + Tokens(if e < |u| then u[e + 1..] else "", room - 1)
    else
      var e := Until(t, ' ');
      [if room == 1 then t else t[..e]] + Tokens(t[e..], room - 1)
  }

  // ---- round trips ----

  function Quote(arg: string): string {
    "\"" + arg + "\""
  }

  function QuotedLine(args: seq<string>): string {
    if args == [] then ""
    else if |args| == 1 then Quote(args[0])
    else Quote(args[0]) + " " + QuotedLine(args[1..])
  }

  lemma QuotedHead(arg: string, rest: string, room: nat)
    requires '"' !in arg && room > 0
    ensures Tokens(Quote(arg) + rest, room) == [arg] + Tokens(rest, room - 1)
  {
    var s := Quote(arg) + rest;
    var u := s[1..];
    assert s[0] == '"' && s[Spaces(s)..] == s;
    assert u == arg + "\"" + rest;
    UntilIs(u, '"', |arg|);
    assert u[..|arg|] == arg && u[|arg| + 1..] == rest;
  }

  lemma SpaceSkipped(s: string, room: nat)
    ensures Tokens(" " + s, room) == Tokens(s, room)
  {
    var t := " " + s;
    assert t[1..] == s;
    assert t[Spaces(t)..] == s[Spaces(s)..];
  }

  lemma NoTokens(room: nat)
    ensures Tokens("", room) == []
  {
    assert ""[Spaces("")..] == "";
  }

  /** Up to 16 arguments without quotes, each quoted and separated by spaces, come back exactly. */
  lemma {:induction false} QuotedRoundTrip(args: seq<string>, room: nat)
    requires |args| <= room && forall i | 0 <= i < |args| :: '"' !in args[i]
    ensures Tokens(QuotedLine(args), room) == args
    decreases |args|
  {
    hide Tokens;
    NoTokens(room);
    if args == [] {
    } else if |args| == 1 {
      QuotedHead(args[0], "", room);
      NoTokens(room - 1);
      assert Quote(args[0]) + "" == Quote(args[0]);
    } else {
      var rest := " " + QuotedLine(args[1..]);
      assert QuotedLine(args) == Quote(args[0]) + rest;
      QuotedHead(args[0], rest, room);
      SpaceSkipped(QuotedLine(args[1..]), room - 1);
      QuotedRoundTrip(args[1..], room - 1);
    }
  }

  lemma NoRoomNoTokens(s: string)
    ensures Tokens(s, 0) == []
  {
  }

  predicate PlainWord(w: string) {
    w != "" && ' ' !in w && w[0] != '"'
  }

  function PlainLine(words: seq<string>): string {
    if words == [] then ""
    else if |words| == 1 then words[0]
    else words[0] + " " + PlainLine(words[1..])
  }

  lemma WordHead(w: string, rest: string, room: nat)
    requires PlainWord(w) && room > 0 && (rest == "" || rest[0] == ' ')
    ensures Tokens(w + rest, room) == [if room == 1 then w + rest else w] + Tokens(rest, room - 1)
  {
    var s := w + rest;
    assert s[0] == w[0] && w[0] in w;
    assert s[Spaces(s)..] == s;
    UntilIs(s, ' ', |w|);
    assert s[..|w|] == w && s[|w|..] == rest;
  }

  /** Unquoted words come back too, except that with more words than places the last place holds all the others. */
  lemma {:induction false} PlainRoundTrip(words: seq<string>, room: nat)
    requires room > 0 && forall i | 0 <= i < |words| :: PlainWord(words[i])
    ensures Tokens(PlainLine(words), room) ==
            if |words| <= room then words else words[..room - 1] + [PlainLine(words[room - 1..])]
    decreases |words|
  {
    hide Tokens, PlainWord;
    NoTokens(room);
    NoTokens(room - 1);
    if words == [] {
    } else if |words| == 1 {
      WordHead(words[0], "", room);
      assert words[0] + "" == words[0];
    } else {
      var rest := " " + PlainLine(words[1..]);
      assert PlainLine(words) == words[0] + rest;
      WordHead(words[0], rest, room);
      if room == 1 {
        NoRoomNoTokens(rest);
        assert words[0..] == words;
        assert words[..0] + [PlainLine(words[0..])] == [PlainLine(words)];
      } else {
        SpaceSkipped(PlainLine(words[1..]), room - 1);
        PlainRoundTrip(words[1..], room - 1);
        if |words| > room {
          assert words[1..][room - 2..] == words[room - 1..];
          assert [words[0]] + words[1..][..room - 2] == words[..room - 1];
        }
      }
    }
  }

  /** Every argument is one of the words if and only if there are at most as many as places. */
  lemma PlainWordsKept(words: seq<string>, room: nat)
    requires room > 0 && forall i | 0 <= i < |words| :: PlainWord(words[i])
    ensures Tokens(PlainLine(words), room) == words[..Min(|words|, room)] <==> |words| <= room
  {
    PlainRoundTrip(words, room);
    if |words| > room {
      var tail := words[room - 1..];
      assert PlainLine(tail) == tail[0] + " " + PlainLine(tail[1..]);
      assert |PlainLine(tail)| > |tail[0]|;
      assert words[..room][room - 1] == tail[0];
      assert Tokens(PlainLine(words), room)[room - 1] == PlainLine(tail);
    }
  }

  /** Seventeen words "a": the sixteenth argument is "a a". */
  lemma SeventeenthWordSticks()
    ensures var args := Tokens(PlainLine(seq(17, _ => "a")), MAX_ARGS);
            |args| == MAX_ARGS && args[MAX_ARGS - 1] == "a a"
  {
    hide Tokens;
    var words := seq(17, _ => "a");
    PlainRoundTrip(words, MAX_ARGS);
    assert words[MAX_ARGS - 1..] == ["a", "a"];
    assert PlainLine(["a", "a"]) == "a" + " " + PlainLine(["a"]);
  }

  /** Sixteen words "a" and a space: the sixteenth argument is "a ". */
  lemma TrailingSpaceSticks()
    ensures var args := Tokens(PlainLine(seq(16, _ => "a")) + " ", MAX_ARGS);
            |args| == MAX_ARGS && args[MAX_ARGS - 1] == "a "
  {
    hide Tokens;
    LastKeepsSpace(seq(16, _ => "a"), MAX_ARGS);
  }

  lemma {:induction false} LastKeepsSpace(words: seq<string>, room: nat)
    requires |words| == room > 0 && forall i | 0 <= i < |words| :: PlainWord(words[i])
    ensures Tokens(PlainLine(words) + " ", room) == words[..room - 1] + [words[room - 1] + " "]
    decreases |words|
  {
    hide Tokens, PlainWord;
    if room == 1 {
      WordHead(words[0], " ", 1);
      NoRoomNoTokens(" ");
    } else {
      var rest := " " + (PlainLine(words[1..]) + " ");
      assert PlainLine(words) + " " == words[0] + rest;
      WordHead(words[0], rest, room);
      SpaceSkipped(PlainLine(words[1..]) + " ", room - 1);
      LastKeepsSpace(words[1..], room - 1);
      assert [words[0]] + words[1..][..room - 2] == words[..room - 1];
    }
  }

  // ---- any line ----

  /** The word a text starts with, up to the next space or between double quotes, and the text after it. */
  function FirstWord(t: string): string
    requires t != ""
  {
    if t[0] == '"' then t[1..][..Until(t[1..], '"')] else t[..Until(t, ' ')]
  }

  function AfterWord(t: string): (rest: string)
    requires t != "" && t[0] != ' '
    ensures |rest| < |t|
  {
    if t[0] != '"' then t[Until(t, ' ')..]
    else
      var e := Until(t[1..], '"');
      if e < |t| - 1 then t[1..][e + 1..] else ""
  }

  function Text(s: string): (t: string)
    ensures |t| <= |s| && (t != "" ==> t[0] != ' ')
  {
    s[Spaces(s)..]
  }

  /** All words of a line. */
  function Words(s: string): seq<string>
    decreases |s|
  {
    var t := Text(s);
    if t == "" then [] else [FirstWord(t)] + Words(AfterWord(t))
  }

  /** What is left of a line, without leading spaces, after its first `n` words. */
  function After(s: string, n: nat): string
    decreases n
  {
    var t := Text(s);
    if n == 0 || t == "" then t else After(AfterWord(t), n - 1)
  }

  /** The text is nothing, starts with a quoted word, or is a word that ends the line. */
  predicate OneWord(t: string) {
    t == "" || t[0] == '"' || Until(t, ' ') == |t|
  }

  lemma TokensStep(s: string, room: nat)
    requires room > 0
    ensures var t := Text(s);
            Tokens(s, room) ==
              if t == "" then []
              else [if room == 1 && t[0] != '"' then t else FirstWord(t)] + Tokens(AfterWord(t), room - 1)
  {
    hide Until, Spaces;
  }

  lemma OneWordIs(t: string)
    requires t != ""
    ensures OneWord(t) <==> (t[0] == '"' || FirstWord(t) == t)
  {
  }

  /**
   * For every line, the arguments are its words, as many as there are places, if and only if the text that the last
   * place is reached with is one word. Otherwise the last argument is all of that text.
   */
  lemma {:induction false} WordsKept(s: string, room: nat)
    requires room > 0
    ensures Tokens(s, room) == Words(s)[..Min(|Words(s)|, room)] <==> OneWord(After(s, room - 1))
    ensures !OneWord(After(s, room - 1)) ==>
              |Words(s)| >= room && Tokens(s, room) == Words(s)[..room - 1] + [After(s, room - 1)]
    decreases room
  {
    hide Tokens, Until, Spaces, FirstWord, AfterWord, Text, OneWord;
    var t := Text(s);
    TokensStep(s, room);
    if t == "" {
      NothingLeft();
    } else if room == 1 {
      OneWordIs(t);
      NoRoomNoTokens(AfterWord(t));
      assert Words(s)[..1] == [FirstWord(t)] && Words(s)[..0] == [];
    } else {
      WordsKept(AfterWord(t), room - 1);
      OneMoreWord(FirstWord(t), Words(AfterWord(t)), room);
    }
  }

  lemma NothingLeft()
    ensures OneWord("")
  {
  }

  lemma OneMoreWord(w: string, rest: seq<string>, room: nat)
    requires room > 1
    ensures ([w] + rest)[..Min(|rest| + 1, room)] == [w] + rest[..Min(|rest|, room - 1)]
    ensures |rest| >= room - 1 ==> ([w] + rest)[..room - 1] == [w] + rest[..room - 2]
  {
  }

  // ---- the parser ----

  /** One step of Tokens, in positions of the line: where the text starts, `q` characters in. */
  lemma TokensAt(line: string, p: nat, room: nat, q: nat)
    requires p <= |line| && room > 0 && q == p + Spaces(line[p..])
    ensures q <= |line| && line[q..] == line[p..][Spaces(line[p..])..]
    ensures q < |line| ==> line[q] != ' '
    ensures Tokens(line[p..], room) == Tokens(line[q..], room)
  {
    hide Tokens;
    SkipKeeps(line[p..], room);
    assert line[q..] == line[p..][Spaces(line[p..])..];
  }

  lemma SkipKeeps(s: string, room: nat)
    ensures Tokens(s[Spaces(s)..], room) == Tokens(s, room)
  {
    hide Until;
    var t := s[Spaces(s)..];
    assert Spaces(t) == 0;
    assert t[Spaces(t)..] == t;
    SameStart(s, t, room);
  }

  lemma SameStart(s: string, t: string, room: nat)
    requires s[Spaces(s)..] == t[Spaces(t)..]
    ensures Tokens(s, room) == Tokens(t, room)
  {
    hide Until, Spaces;
  }

  lemma TokensEnd(line: string, room: nat)
    ensures Tokens(line[|line|..], room) == []
  {
    assert ""[Spaces("")..] == "";
  }

  lemma QuotedAt(line: string, q: nat, room: nat, e: nat)
    requires q < |line| && room > 0 && line[q] == '"' && e == q + 1 + Until(line[q + 1..], '"')
    ensures e <= |line|
    ensures Tokens(line[q..], room) == [line[q + 1..e]] + Tokens(line[if e < |line| then e + 1 else e..], room - 1)
  {
    hide Tokens, Until;
    var t, u := line[q..], line[q + 1..];
    assert t[0] == '"' && t[1..] == u;
    QuotedTokens(t, room);
    UntilBounds(u, '"');
    var k := Until(u, '"');
    assert u[..k] == line[q + 1..e];
    assert if k < |u| then u[k + 1..] == line[e + 1..] else line[e..] == "";
  }

  lemma UntilBounds(s: string, c: char)
    ensures Until(s, c) <= |s|
  {
  }

  lemma QuotedTokens(t: string, room: nat)
    requires t != "" && t[0] == '"' && room > 0
    ensures Until(t[1..], '"') <= |t| - 1
    ensures var u, e := t[1..], Until(t[1..], '"');
            Tokens(t, room) == [u[..e]] + Tokens(if e < |u| then u[e + 1..] else "", room - 1)
  {
    hide Until, Spaces;
    UntilBounds(t[1..], '"');
    NoSpaces(t);
    assert t[0..] == t;
  }

  lemma NoSpaces(t: string)
    requires t != "" && t[0] != ' '
    ensures Spaces(t) == 0
  {
  }

  lemma WordAt(line: string, q: nat, room: nat, e: nat)
    requires q < |line| && room > 0 && line[q] != '"' && line[q] != ' ' && e == q + Until(line[q..], ' ')
    ensures q < e <= |line| && (e < |line| ==> line[e] == ' ')
    ensures Tokens(line[q..], room) == [line[q..if room == 1 then |line| else e]] + Tokens(line[e..], room - 1)
  {
    hide Until, Spaces;
    var t := line[q..];
    WordTokens(t, room);
    assert t[..e - q] == line[q..e] && t[e - q..] == line[e..];
    assert line[q..|line|] == t;
    assert e < |line| ==> t[e - q] == line[e];
  }

  lemma WordTokens(t: string, room: nat)
    requires t != "" && t[0] != '"' && t[0] != ' ' && room > 0
    ensures 0 < Until(t, ' ') <= |t| && (Until(t, ' ') < |t| ==> t[Until(t, ' ')] == ' ')
    ensures var e := Until(t, ' ');
            Tokens(t, room) == [if room == 1 then t else t[..e]] + Tokens(t[e..], room - 1)
  {
    UntilFacts(t);
    hide Until, Spaces;
    NoSpaces(t);
    assert t[0..] == t;
  }

  lemma UntilFacts(t: string)
    requires t != "" && t[0] != ' '
    ensures 0 < Until(t, ' ') <= |t| && (Until(t, ' ') < |t| ==> t[Until(t, ' ')] == ' ')
  {
  }

  /** The C strings the argument pointers stand for. */
  function Args(w: string, argv: seq<nat>): (args: seq<string>)
    requires forall i | 0 <= i < |argv| :: argv[i] <= |w|
    ensures |args| == |argv|
  {
    seq(|argv|, i requires 0 <= i < |argv| => CStr(w[argv[i]..]))
  }

  /** An argument that is cut off: the line's text from `a` to `e`, and a NUL there. */
  ghost predicate Cut(w: string, line: string, a: nat, e: nat) {
    a <= e <= |line| < |w| && w[a..e] == line[a..e] && w[e] == '\0'
  }

  lemma CutText(w: string, line: string, a: nat, e: nat)
    requires Cut(w, line, a, e) && NoNul(line)
    ensures CStr(w[a..]) == line[a..e]
  {
    assert w[a..][..e - a] == w[a..e];
    CStrAt(w[a..], e - a);
  }

  /** `v` is `w` with NULs written over some of the characters from `p` on. */
  ghost predicate Erased(w: string, v: string, p: nat) {
    |v| == |w| && forall k | 0 <= k < |w| :: v[k] == w[k] || (p <= k && v[k] == '\0')
  }

  lemma CutStays(w: string, v: string, line: string, a: nat, e: nat, p: nat)
    requires Cut(w, line, a, e) && e <= p && Erased(w, v, p)
    ensures Cut(v, line, a, e)
  {
    assert forall k | a <= k < e :: v[k] == w[k];
    assert v[a..e] == w[a..e];
  }

  /** All arguments so far are cut off before `p`, except that the last is still open at `p` if `open` says so. */
  ghost predicate Parsed(w: string, line: string, p: nat, argv: seq<nat>, ends: seq<nat>, open: bool) {
    && |argv| == |ends| && p <= |line| < |w| && w[p..|line|] == line[p..] && w[|line|] == '\0'
    && (forall i | 0 <= i < |argv| && !(open && i == |argv| - 1) :: ends[i] <= p && Cut(w, line, argv[i], ends[i]))
    && (open ==> |argv| > 0 && OpenArg(w, line, argv[|argv| - 1], ends[|argv| - 1], p))
  }

  ghost predicate OpenArg(w: string, line: string, a: nat, e: nat, p: nat) {
    a <= e == p <= |line| < |w| && w[a..e] == line[a..e] && (p < |line| ==> line[p] == ' ')
  }

  /** The text of the arguments; one left open in the last place runs to the end of the line. */
  ghost function Texts(line: string, argv: seq<nat>, ends: seq<nat>, open: bool): (texts: seq<string>)
    requires |argv| == |ends| && forall i | 0 <= i < |argv| :: argv[i] <= ends[i] <= |line|
    ensures |texts| == |argv|
  {
    seq(|argv|, i requires 0 <= i < |argv| =>
      if open && i == MAX_ARGS - 1 then line[argv[i]..] else line[argv[i]..ends[i]])
  }

  lemma ParsedRange(w: string, line: string, p: nat, argv: seq<nat>, ends: seq<nat>, open: bool)
    requires Parsed(w, line, p, argv, ends, open)
    ensures |argv| == |ends| && forall i | 0 <= i < |argv| :: argv[i] <= ends[i] <= |line|
  {
    forall i | 0 <= i < |argv|
      ensures argv[i] <= ends[i] <= |line|
    {
      assert !(open && i == |argv| - 1) ==> Cut(w, line, argv[i], ends[i]);
    }
  }

  /** Erasing spaces up to `q` cuts off an argument that was left open. */
  lemma Skipped(w: string, v: string, line: string, p: nat, q: nat, argv: seq<nat>, ends: seq<nat>, open: bool)
    requires Parsed(w, line, p, argv, ends, open) && p < |line| && p <= q <= |line| && Erased(w, v, p)
    requires v[q..|line|] == line[q..] && v[|line|] == '\0' && (line[p] == ' ' ==> v[p] == '\0')
    ensures Parsed(v, line, q, argv, ends, false)
  {
    forall i | 0 <= i < |argv|
      ensures ends[i] <= q && Cut(v, line, argv[i], ends[i])
    {
      if open && i == |argv| - 1 {
        assert v[argv[i]..p] == w[argv[i]..p];
      } else {
        CutStays(w, v, line, argv[i], ends[i], p);
      }
    }
  }

  /** One more argument. */
  lemma Grown(w: string, line: string, q: nat, argv: seq<nat>, ends: seq<nat>, a: nat, e: nat, open: bool, v: string,
              p: nat)
    requires Parsed(w, line, q, argv, ends, false) && Erased(w, v, q) && q <= p <= |line|
    requires v[p..|line|] == line[p..] && v[|line|] == '\0'
    requires if open then OpenArg(v, line, a, e, p) else Cut(v, line, a, e) && e <= p
    ensures Parsed(v, line, p, argv + [a], ends + [e], open)
  {
    forall i | 0 <= i < |argv|
      ensures ends[i] <= p && Cut(v, line, argv[i], ends[i])
    {
      CutStays(w, v, line, argv[i], ends[i], q);
    }
  }

  lemma TextsMore(line: string, argv: seq<nat>, ends: seq<nat>, was: bool, a: nat, e: nat, open: bool)
    requires |argv| == |ends| < MAX_ARGS && a <= e <= |line|
    requires forall i | 0 <= i < |argv| :: argv[i] <= ends[i] <= |line|
    ensures Texts(line, argv + [a], ends + [e], open) ==
            Texts(line, argv, ends, was) + [line[a..if open && |argv| == MAX_ARGS - 1 then |line| else e]]
    ensures Texts(line, argv, ends, was) == Texts(line, argv, ends, false)
  {
    assert line[a..|line|] == line[a..];
  }

  /** An argument left open runs to the end of the line. */
  lemma OpenToEnd(w: string, line: string, a: nat, e: nat, p: nat)
    requires OpenArg(w, line, a, e, p) && w[p..|line|] == line[p..] && w[|line|] == '\0'
    ensures Cut(w, line, a, |line|)
  {
    forall k | a <= k < |line|
      ensures w[k] == line[k]
    {
      if k < p {
        assert w[a..p][k - a] == line[a..p][k - a];
      } else {
        assert w[p..|line|][k - p] == line[p..][k - p];
      }
    }
  }

  /** When the parser is done, the pointers stand for the texts. */
  lemma Finished(w: string, line: string, p: nat, argv: seq<nat>, ends: seq<nat>, open: bool)
    requires Parsed(w, line, p, argv, ends, open) && NoNul(line) && |argv| <= MAX_ARGS
    requires p == |line| || |argv| == MAX_ARGS
    ensures forall i | 0 <= i < |argv| :: argv[i] <= ends[i] <= |line|
    ensures Args(w, argv) == Texts(line, argv, ends, open)
  {
    ParsedRange(w, line, p, argv, ends, open);
    forall i | 0 <= i < |argv|
      ensures CStr(w[argv[i]..]) == Texts(line, argv, ends, open)[i]
    {
      if open && i == |argv| - 1 {
        OpenToEnd(w, line, argv[i], ends[i], p);
        CutText(w, line, argv[i], |line|);
        assert line[argv[i]..|line|] == line[argv[i]..];
      } else {
        CutText(w, line, argv[i], ends[i]);
      }
    }
  }

  method StrCopy(work: array<char>, line: string)
    requires |line| < work.Length
    modifies work
    ensures work[..|line|] == line && work[|line|] == '\0'
  {
    var i := 0;
    while i < |line|
      invariant 0 <= i <= |line| && work[..i] == line[..i]
    {
      work[i] := line[i];
      i := i + 1;
    }
    work[i] := '\0';
  }

  /** The loop that overwrites spaces with NULs. */
  method SkipSpaces(work: array<char>, ghost line: string, p: nat) returns (q: nat)
    requires p <= |line| < work.Length && work[p..|line|] == line[p..] && work[|line|] == '\0'
    modifies work
    ensures p <= q <= |line| && q == p + Spaces(line[p..])
    ensures Erased(old(work[..]), work[..], p) && work[q..|line|] == line[q..] && work[|line|] == '\0'
    ensures p < |line| && line[p] == ' ' ==> work[p] == '\0'
  {
    q := p;
    while work[q] == ' '
      invariant p <= q <= |line| && work[q..|line|] == line[q..] && work[|line|] == '\0'
      invariant Erased(old(work[..]), work[..], p) && (p < q ==> work[p] == '\0')
      invariant forall k | p <= k < q :: line[k] == ' '
      decreases |line| - q
    {
      assert q < |line| && work[q..|line|][0] == line[q..][0];
      work[q] := '\0';
      q := q + 1;
    }
    assert q < |line| ==> work[q..|line|][0] == line[q..][0];
    SpacesIs(line[p..], q - p);
  }

  lemma {:induction false} SpacesIs(s: string, k: nat)
    requires k <= |s| && (forall i | 0 <= i < k :: s[i] == ' ') && (k < |s| ==> s[k] != ' ')
    ensures Spaces(s) == k
  {
    if k > 0 {
      assert forall i | 0 <= i < k - 1 :: s[1..][i] == s[i + 1];
      SpacesIs(s[1..], k - 1);
    }
  }

  /** The loops that look for the end of an argument. */
  method Scan(work: array<char>, ghost line: string, p: nat, c: char) returns (e: nat)
    requires p <= |line| < work.Length && work[p..|line|] == line[p..] && work[|line|] == '\0' && NoNul(line)
    ensures p <= e <= |line| && e == p + Until(line[p..], c)
    ensures work[e] == '\0' <==> e == |line|
  {
    e := p;
    while work[e] != '\0' && work[e] != c
      invariant p <= e <= |line| && forall k | p <= k < e :: line[k] != c
      decreases |line| - e
    {
      assert e < |line| && work[p..|line|][e - p] == line[p..][e - p];
      e := e + 1;
    }
    assert e < |line| ==> work[p..|line|][e - p] == line[p..][e - p] && line[e] in line;
    UntilIs(line[p..], c, e - p);
  }

  /** What a turn adds to the arguments is what Tokens takes from the line. */
  ghost predicate Accounted(line: string, p: nat, argv: seq<nat>, ends: seq<nat>, open: bool, p': nat, argv': seq<nat>,
                            ends': seq<nat>, open': bool)
  {
    && |argv| == |ends| && |argv'| == |ends'| && p <= p' <= |line| && |argv| <= |argv'| <= MAX_ARGS
    && (forall i | 0 <= i < |argv| :: argv[i] <= ends[i] <= |line|)
    && (forall i | 0 <= i < |argv'| :: argv'[i] <= ends'[i] <= |line|)
    && Texts(line, argv, ends, open) + Tokens(line[p..], MAX_ARGS - |argv|) ==
       Texts(line, argv', ends', open') + Tokens(line[p'..], MAX_ARGS - |argv'|)
  }

  lemma OneMore(front: seq<string>, x: string, back: seq<string>)
    ensures front + ([x] + back) == front + [x] + back
  {
  }

  lemma AccountedMore(w: string, line: string, q: nat, argv: seq<nat>, ends: seq<nat>, a: nat, e: nat, open: bool,
                      p: nat)
    requires Parsed(w, line, q, argv, ends, false) && |argv| < MAX_ARGS && a <= e <= |line| && q <= p <= |line|
    requires Tokens(line[q..], MAX_ARGS - |argv|) ==
             [line[a..if open && |argv| == MAX_ARGS - 1 then |line| else e]] + Tokens(line[p..], MAX_ARGS - |argv| - 1)
    ensures Accounted(line, q, argv, ends, false, p, argv + [a], ends + [e], open)
  {
    hide Tokens, Texts, Parsed;
    ParsedRange(w, line, q, argv, ends, false);
    RangeMore(line, argv, ends, a, e);
    TextsMore(line, argv, ends, false, a, e, open);
    var x := line[a..if open && |argv| == MAX_ARGS - 1 then |line| else e];
    OneMore(Texts(line, argv, ends, false), x, Tokens(line[p..], MAX_ARGS - |argv| - 1));
    assert Texts(line, argv + [a], ends + [e], open) == Texts(line, argv, ends, false) + [x];
  }

  lemma RangeMore(line: string, argv: seq<nat>, ends: seq<nat>, a: nat, e: nat)
    requires |argv| == |ends| && a <= e <= |line|
    requires forall i | 0 <= i < |argv| :: argv[i] <= ends[i] <= |line|
    ensures |argv + [a]| == |ends + [e]| == |argv| + 1
    ensures forall i | 0 <= i < |argv + [a]| :: (argv + [a])[i] <= (ends + [e])[i] <= |line|
  {
  }

  /** A quoted argument: up to the next quote, which becomes a NUL. */
  method QuotedArg(work: array<char>, line: string, q: nat, argv: seq<nat>, ghost ends: seq<nat>)
    returns (argv': seq<nat>, p: nat, ghost ends': seq<nat>)
    requires Parsed(work[..], line, q, argv, ends, false) && q < |line| && line[q] == '"'
    requires |argv| < MAX_ARGS && NoNul(line)
    modifies work
    ensures q < p && Parsed(work[..], line, p, argv', ends', false)
    ensures Accounted(line, q, argv, ends, false, p, argv', ends', false)
  {
    hide Tokens, Texts, Spaces, Until, CStr, NoNul;
    ghost var w := work[..];
    assert work[q..|line|][1..] == work[q + 1..|line|] && line[q..][1..] == line[q + 1..];
    var e := Scan(work, line, q + 1, '"');
    QuotedAt(line, q, MAX_ARGS - |argv|, e);
    p := e;
    assert work[q + 1..e] == work[q + 1..|line|][..e - q - 1] && line[q + 1..e] == line[q + 1..][..e - q - 1];
    if work[e] != '\0' {
      work[e] := '\0';
      p := e + 1;
    }
    assert work[q + 1..e] == w[q + 1..e] && work[p..|line|] == w[q..|line|][p - q..] && line[q..][p - q..] == line[p..];
    argv', ends' := argv + [q + 1], ends + [e];
    Grown(w, line, q, argv, ends, q + 1, e, false, work[..], p);
    AccountedMore(w, line, q, argv, ends, q + 1, e, false, p);
  }

  /** A word: up to the next space, where nothing is written yet. */
  method WordArg(work: array<char>, line: string, q: nat, argv: seq<nat>, ghost ends: seq<nat>)
    returns (argv': seq<nat>, p: nat, ghost ends': seq<nat>)
    requires Parsed(work[..], line, q, argv, ends, false) && q < |line| && line[q] != '"' && line[q] != ' '
    requires |argv| < MAX_ARGS && NoNul(line)
    ensures q < p && Parsed(work[..], line, p, argv', ends', true)
    ensures Accounted(line, q, argv, ends, false, p, argv', ends', true)
  {
    hide Tokens, Texts, Spaces, Until, CStr, NoNul;
    ghost var w := work[..];
    p := Scan(work, line, q, ' ');
    WordAt(line, q, MAX_ARGS - |argv|, p);
    assert work[q..p] == work[q..|line|][..p - q] && line[q..p] == line[q..][..p - q];
    assert work[p..|line|] == work[q..|line|][p - q..] && line[p..] == line[q..][p - q..];
    argv', ends' := argv + [q], ends + [p];
    Grown(w, line, q, argv, ends, q, p, true, w, p);
    AccountedMore(w, line, q, argv, ends, q, p, true, p);
  }

  /** One turn of the loop of Execute. */
  method Turn(work: array<char>, line: string, p: nat, argv: seq<nat>, ghost ends: seq<nat>, ghost open: bool)
    returns (argv': seq<nat>, p': nat, ghost ends': seq<nat>, ghost open': bool)
    requires Parsed(work[..], line, p, argv, ends, open) && p < |line| && |argv| < MAX_ARGS && NoNul(line)
    modifies work
    ensures Parsed(work[..], line, p', argv', ends', open') && p < p'
    ensures Accounted(line, p, argv, ends, open, p', argv', ends', open')
  {
    hide Tokens, Texts, Cut, Spaces, Until, CStr, NoNul;
    ghost var w := work[..];
    ParsedRange(w, line, p, argv, ends, open);
    var q := SkipSpaces(work, line, p);
    Skipped(w, work[..], line, p, q, argv, ends, open);
    TokensAt(line, p, MAX_ARGS - |argv|, q);
    TextsClosed(line, argv, ends, open);
    NotNul(line, q);
    assert q < |line| ==> work[q] == line[q] by { assert q < |line| ==> work[q..|line|][0] == line[q..][0]; }
    argv', p', ends', open' := argv, q, ends, false;
    if work[q] != '\0' {
      if work[q] == '"' {
        argv', p', ends' := QuotedArg(work, line, q, argv, ends);
      } else {
        argv', p', ends' := WordArg(work, line, q, argv, ends);
        open' := true;
      }
    }
  }

  lemma NotNul(line: string, q: nat)
    requires NoNul(line)
    ensures q < |line| ==> line[q] != '\0'
  {
  }

  lemma TextsClosed(line: string, argv: seq<nat>, ends: seq<nat>, open: bool)
    requires |argv| == |ends| < MAX_ARGS && forall i | 0 <= i < |argv| :: argv[i] <= ends[i] <= |line|
    ensures Texts(line, argv, ends, open) == Texts(line, argv, ends, false)
  {
  }

  /**
   * The tokeniser of Execute. Afterwards the work buffer and the argument pointers stand for exactly the arguments
   * of the line.
   */
  method Tokenise(work: array<char>, line: string) returns (argv: seq<nat>)
    requires work.Length == LINE_MAX && |line| < LINE_MAX && NoNul(line)
    modifies work
    ensures |argv| <= MAX_ARGS && forall i | 0 <= i < |argv| :: argv[i] <= work.Length
    ensures Args(work[..], argv) == Tokens(line, MAX_ARGS)
  {
    hide Tokens, Texts, CStr, NoNul, Cut;
    StrCopy(work, line);
    var p: nat := 0;
    argv := [];
    ghost var ends, open := [], false;
    AccountedNothing(line);
    NotNul(line, p);
    assert line[0..] == line;
    while work[p] != '\0' && |argv| < MAX_ARGS
      invariant Parsed(work[..], line, p, argv, ends, open) && |argv| <= MAX_ARGS
      invariant Accounted(line, 0, [], [], false, p, argv, ends, open)
      decreases |line| - p
    {
      argv, p, ends, open := Turn(work, line, p, argv, ends, open);
    }
    assert p < |line| ==> work[p] == line[p] by { assert p < |line| ==> work[p..|line|][0] == line[p..][0]; }
    NotNul(line, p);
    Finished(work[..], line, p, argv, ends, open);
    TokensEnd(line, MAX_ARGS - |argv|);
    NoRoomNoTokens(line[p..]);
    TextsNone(line);
    assert Texts(line, argv, ends, open) + [] == Texts(line, argv, ends, open);
    assert [] + Tokens(line, MAX_ARGS) == Tokens(line, MAX_ARGS);
  }

  lemma AccountedNothing(line: string)
    ensures Accounted(line, 0, [], [], false, 0, [], [], false)
  {
  }

  lemma TextsNone(line: string)
    ensures Texts(line, [], [], false) == []
  {
  }

  /** The parser undoes quoting. */
  method TokeniseQuoted(work: array<char>, args: seq<string>) returns (argv: seq<nat>)
    requires work.Length == LINE_MAX && |args| <= MAX_ARGS && |QuotedLine(args)| < LINE_MAX
    requires forall i | 0 <= i < |args| :: '"' !in args[i] && NoNul(args[i])
    modifies work
    ensures (forall i | 0 <= i < |argv| :: argv[i] <= work.Length) && Args(work[..], argv) == args
  {
    QuotedNoNul(args);
    QuotedRoundTrip(args, MAX_ARGS);
    argv := Tokenise(work, QuotedLine(args));
  }

  lemma {:induction false} QuotedNoNul(args: seq<string>)
    requires forall i | 0 <= i < |args| :: NoNul(args[i])
    ensures NoNul(QuotedLine(args))
  {
    if |args| > 1 {
      QuotedNoNul(args[1..]);
    }
  }

  // ---- numbers ----

  function DigitValue(c: char, base: nat): Option<nat> {
    if '0' <= c <= '9' then Some(c as int - '0' as int)
    else if base == 16 && 'a' <= c <= 'f' then Some(c as int - 'a' as int + 10)
    else if base == 16 && 'A' <= c <= 'F' then Some(c as int - 'A' as int + 10)
    else None
  }

  /** The value of a digit string, without any limit on its size. */
  function Digits(s: string, base: nat): Option<nat> {
    if s == "" then Some(0)
    else
      var front, d := Digits(s[..|s| - 1], base), DigitValue(s[|s| - 1], base);
      if front.Some? && d.Some? then Some(front.value * base + d.value) else None
  }

  predicate IsHex(text: string) {
    |text| >= 2 && text[0] == '0' && (text[1] == 'x' || text[1] == 'X')
  }

  /** The number a text stands for: decimal, or hexadecimal after 0x; there must be a digit. */
  function Number(text: string): Option<nat> {
    var digits, base := if IsHex(text) then text[2..] else text, if IsHex(text) then 16 else 10;
    if digits == "" then None else Digits(digits, base)
  }

  function Mod32(n: nat): nat {
    n % U32
  }

  lemma Mod32Step(value: nat, base: nat, d: nat)
    requires base == 10 || base == 16
    ensures Mod32(Mod32(value) * base + d) == Mod32(value * base + d)
  {
    var q := value / U32;
    assert value == q * U32 + Mod32(value);
    assert value * base + d == (Mod32(value) * base + d) + (q * base) * U32;
    AddMultiple(Mod32(value) * base + d, q * base);
  }

  lemma {:induction false} AddMultiple(a: nat, k: nat)
    ensures Mod32(a + k * U32) == Mod32(a)
  {
    if k > 0 {
      AddMultiple(a, k - 1);
      assert a + k * U32 == a + (k - 1) * U32 + U32;
    }
  }

  lemma {:induction false} DigitsPrefix(s: string, base: nat, n: nat)
    requires n <= |s| && Digits(s, base).Some?
    ensures Digits(s[..n], base).Some?
  {
    if n < |s| {
      assert s[..|s| - 1][..n] == s[..n];
      DigitsPrefix(s[..|s| - 1], base, n);
    } else {
      assert s[..n] == s;
    }
  }

  /** ParseNumber: the number modulo 2^32, or nothing if the text is not one. */
  method ParseNumber(text: string) returns (r: Option<nat>)
    ensures r == if Number(text).Some? then Some(Mod32(Number(text).value)) else None
  {
    var base, digits := 10, text;
    if |text| >= 2 && text[0] == '0' && (text[1] == 'x' || text[1] == 'X') {
      base, digits := 16, text[2..];
    }
    if digits == "" {
      return None;
    }
    var value, i, ok := 0, 0, true;
    while i < |digits| && ok
      invariant 0 <= i <= |digits| && 0 <= value
      invariant ok ==> Digits(digits[..i], base).Some? && value == Mod32(Digits(digits[..i], base).value)
      invariant !ok ==> Digits(digits, base).None?
      decreases ok, |digits| - i
    {
      var d := DigitValue(digits[i], base);
      ghost var before := digits[..i];
      assert digits[..i + 1][..i] == before;
      if d.None? {
        ok := false;
        if Digits(digits, base).Some? {
          DigitsPrefix(digits, base, i + 1);
        }
      } else {
        Mod32Step(Digits(before, base).value, base, d.value);
        value := Mod32(value * base + d.value);
        i := i + 1;
      }
    }
    assert digits[..|digits|] == digits;
    r := if ok then Some(value) else None;
  }

  lemma {:induction false} DecimalDigits(n: nat)
    ensures Digits(Decimal(n), 10) == Some(n)
    ensures Decimal(n)[0] == '0' ==> n == 0
  {
    var s := Decimal(n);
    if n >= 10 {
      assert s[..|s| - 1] == Decimal(n / 10);
      DecimalDigits(n / 10);
      assert s[0] == Decimal(n / 10)[0];
    } else {
      assert s[..0] == "";
    }
  }

  /** The digits of a number are read back as that number. */
  lemma DecimalNumber(n: nat)
    ensures Number(Decimal(n)) == Some(n)
  {
    DecimalDigits(n);
    assert !IsHex(Decimal(n));
  }

  /** A hexadecimal digit, with its letters in upper or lower case. */
  function HexDigit(d: nat, upper: bool): char
    requires d < 16
  {
    (if upper then "0123456789ABCDEF" else "0123456789abcdef")[d]
  }

  function Hexadecimal(n: nat, upper: bool): (s: string)
    ensures s != ""
  {
    (if n < 16 then "" else Hexadecimal(n / 16, upper)) + [HexDigit(n % 16, upper)]
  }

  lemma HexDigitValue(d: nat, upper: bool)
    requires d < 16
    ensures DigitValue(HexDigit(d, upper), 16) == Some(d)
  {
  }

  lemma DigitsMore(front: string, c: char, base: nat, v: nat, d: nat)
    requires Digits(front, base) == Some(v) && DigitValue(c, base) == Some(d)
    ensures Digits(front + [c], base) == Some(v * base + d)
  {
    hide DigitValue;
    assert (front + [c])[..|front|] == front;
  }

  lemma {:induction false} HexadecimalDigits(n: nat, upper: bool)
    ensures Digits(Hexadecimal(n, upper), 16) == Some(n)
  {
    hide HexDigit, DigitValue, Digits;
    HexDigitValue(n % 16, upper);
    if n >= 16 {
      HexadecimalDigits(n / 16, upper);
      DigitsMore(Hexadecimal(n / 16, upper), HexDigit(n % 16, upper), 16, n / 16, n % 16);
    } else {
      NoDigits();
      DigitsMore("", HexDigit(n, upper), 16, 0, n);
    }
  }

  lemma NoDigits()
    ensures Digits("", 16) == Some(0)
  {
  }

  /** Hexadecimal digits after 0x or 0X, in either case, are read back as the number; 0x alone is none. */
  lemma HexNumber(n: nat, upper: bool)
    ensures Number("0x" + Hexadecimal(n, upper)) == Some(n) == Number("0X" + Hexadecimal(n, upper))
    ensures Number("0x").None? && Number("0X").None? && Number("").None?
  {
    HexadecimalDigits(n, upper);
    assert ("0x" + Hexadecimal(n, upper))[2..] == Hexadecimal(n, upper);
    assert ("0X" + Hexadecimal(n, upper))[2..] == Hexadecimal(n, upper);
    hide Hexadecimal, Digits;
  }

  /** The first loop of AppendUInt: the digits, last one first, in a buffer with room for them. */
  method ReversedDigits(value: nat) returns (digits: array<char>, n: nat)
    requires value < U64
    ensures fresh(digits) && n == |Decimal(value)| <= digits.Length
    ensures forall k | 0 <= k < n :: digits[k] == Decimal(value)[n - 1 - k]
  {
    hide Decimal, Digit;
    ghost var whole := Decimal(value);
    DecimalWidth64(value);
    DecimalEnds(value);
    digits := new char[21];
    n := 1;
    var rest := value / 10;
    digits[0] := Digit(value % 10);
    while rest > 0
      invariant 1 <= n <= |whole| <= 20 && 0 <= rest
      invariant if rest == 0 then n == |whole| else n < |whole| && whole[..|whole| - n] == Decimal(rest)
      invariant forall k | 0 <= k < n :: digits[k] == whole[|whole| - 1 - k]
      decreases rest
    {
      DecimalEnds(rest);
      ghost var front := whole[..|whole| - n];
      assert front[|front| - 1] == whole[|whole| - 1 - n] && front[..|front| - 1] == whole[..|whole| - n - 1];
      digits[n], n, rest := Digit(rest % 10), n + 1, rest / 10;
    }
  }

  /** AppendUInt: the decimal digits of a number, at `pos`. */
  method AppendUInt(out: array<char>, pos: nat, value: nat) returns (end: nat)
    requires value < U64 && pos + |Decimal(value)| <= out.Length
    modifies out
    ensures end == pos + |Decimal(value)| && out[pos..end] == Decimal(value)
    ensures forall k | 0 <= k < out.Length && !(pos <= k < end) :: out[k] == old(out[k])
  {
    hide Decimal;
    ghost var whole := Decimal(value);
    var digits, n := ReversedDigits(value);
    end := pos;
    while n > 0
      invariant 0 <= n <= |whole| && end == pos + |whole| - n
      invariant out[pos..end] == whole[..|whole| - n]
      invariant forall k | 0 <= k < out.Length && !(pos <= k < end) :: out[k] == old(out[k])
      invariant forall k | 0 <= k < |whole| :: digits[k] == whole[|whole| - 1 - k]
    {
      n := n - 1;
      out[end] := digits[n];
      end := end + 1;
      assert out[pos..end] == out[pos..end - 1] + [whole[|whole| - 1 - n]];
    }
  }

  lemma DecimalWidth64(value: nat)
    requires value < U64
    ensures |Decimal(value)| <= 20
  {
    assert Pow10(4) == 10000;
    assert Pow10(8) == 10000 * Pow10(4);
    assert Pow10(12) == 10000 * Pow10(8);
    assert Pow10(16) == 10000 * Pow10(12);
    assert Pow10(20) == 10000 * Pow10(16);
    DecimalWidth(value, 20);
  }

  /** A number written by AppendUInt and read by ParseNumber comes back modulo 2^32. */
  method NumberRoundTrip(out: array<char>, pos: nat, value: nat) returns (r: Option<nat>)
    requires value < U64 && pos + |Decimal(value)| <= out.Length
    modifies out
    ensures r == Some(Mod32(value))
  {
    var end := AppendUInt(out, pos, value);
    DecimalNumber(value);
    r := ParseNumber(out[pos..end]);
  }

  // ---- history ----

  function Back(next: nat, k: nat): (i: nat)
    requires k <= HISTORY_SIZE
    ensures i < HISTORY_SIZE
  {
    (next + HISTORY_SIZE - k) % HISTORY_SIZE
  }

  function NextOf(i: nat): nat {
    (i + 1) % HISTORY_SIZE
  }

  /** Whether HistoryAdd stores the line: it is not empty and not a repetition of the last one. */
  predicate Remembered(log: seq<string>, line: string) {
    line != "" && (log == [] || log[|log| - 1] != line)
  }

  class LineHistory {
    const lines: array<string>
    var next: nat
    var count: nat
    var pos: nat
    /** Every line ever stored. */
    ghost var log: seq<string>

    /** The ring holds the last 16 lines stored, the newest just before `next`. */
    ghost predicate Valid()
      reads this, lines
    {
      && lines.Length == HISTORY_SIZE && next == |log| % HISTORY_SIZE
      && count == Min(|log|, HISTORY_SIZE) && pos <= count
      && forall k | 1 <= k <= count :: lines[Back(next, k)] == log[|log| - k]
    }

    constructor ()
      ensures Valid() && fresh(lines) && log == [] && pos == 0
    {
      lines := new string[HISTORY_SIZE](_ => "");
      next, count, pos, log := 0, 0, 0, [];
    }

    /** HistoryAdd. */
    method Add(line: string)
      requires Valid()
      modifies this`next, this`count, this`log, lines
      ensures Valid() && log == old(log) + if Remembered(old(log), line) then [line] else []
    {
      var repeated := false;
      if count > 0 {
        repeated := lines[Back(next, 1)] == line;
      }
      if line != "" && !repeated {
        Store(line);
      }
    }

    method Store(line: string)
      requires Valid()
      modifies this`next, this`count, this`log, lines
      ensures Valid() && log == old(log) + [line]
    {
      hide Back;
      NextSlot(|log|);
      lines[next] := line;
      log := log + [line];
      next := NextOf(next);
      if count < HISTORY_SIZE {
        count := count + 1;
      }
      forall k | 1 <= k <= count
        ensures lines[Back(next, k)] == log[|log| - k]
      {
        BackShifts(old(next), k);
      }
    }

    /** HistoryStep: `up` goes to older lines. The new input line, if the input line changes. */
    method Step(up: bool) returns (line: Option<string>)
      requires Valid()
      modifies this`pos
      ensures Valid()
      ensures pos == if up then Min(old(pos) + 1, count) else if old(pos) > 0 then old(pos) - 1 else 0
      ensures line == if pos == old(pos) then None else if pos == 0 then Some("") else Some(log[|log| - pos])
    {
      line := None;
      if up {
        if pos == count {
          return;
        }
        pos := pos + 1;
      } else {
        if pos == 0 {
          return;
        }
        pos := pos - 1;
      }
      line := if pos == 0 then Some("") else Some(lines[Back(next, pos)]);
    }
  }

  lemma BackShifts(next: nat, k: nat)
    requires next < HISTORY_SIZE && 1 <= k <= HISTORY_SIZE
    ensures k > 1 ==> Back(NextOf(next), k) == Back(next, k - 1) != next && Back(next, k - 1) < HISTORY_SIZE
    ensures k == 1 ==> Back(NextOf(next), k) == next
  {
  }

  lemma NextSlot(n: nat)
    ensures NextOf(n % HISTORY_SIZE) == (n + 1) % HISTORY_SIZE
  {
  }
}
