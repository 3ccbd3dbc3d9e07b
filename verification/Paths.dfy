/** kernel/fs.c, the meaning of paths: splitting, resolving and printing, as functions of the volumes' contents. */
module Paths {
  import opened Common
  import opened FatFormat

  const MAX_COMPONENTS := 128
  const FS_PATH_MAX := 512

  datatype Status = NoVolume | NotFound | NotDir | Unsupported

  datatype Result<+T> = Ok(value: T) | Err(status: Status)

  /** FS_NODE. */
  datatype Node = Node(volume: nat, isDir: bool, entry: Entry, path: string)

  /** What path resolution depends on: volume names and contents, partition names, and the current directory. */
  datatype World = World(names: seq<string>, geos: seq<Geometry>, parts: seq<string>, cwdVolume: int, cwdPath: string) {
    ghost predicate Valid() {
      |names| == |geos| && -1 <= cwdVolume < |names|
    }
  }

  predicate IsSep(c: char) {
    c == '/' || c == '\\'
  }

  /** Length of the text before the first separator. */
  function WordLen(s: string): (n: nat)
    ensures n <= |s| && (forall i | 0 <= i < n :: !IsSep(s[i])) && (n < |s| ==> IsSep(s[n]))
  {
    if s == "" || IsSep(s[0]) then 0 else 1 + WordLen(s[1..])
  }

  /** One path component applied to the component stack. */
  function Apply(stack: seq<string>, word: string): seq<string> {
    if word == "." then stack
    else if word == ".." then if stack == [] then stack else stack[..|stack| - 1]
    else if |stack| >= MAX_COMPONENTS then stack
    else stack + [if |word| > FAT_NAME_MAX - 1 then word[..FAT_NAME_MAX - 1] else word]
  }

  /** SplitInto. */
  function Split(stack: seq<string>, path: string): seq<string>
    decreases |path|
  {
    if path == "" then stack
    else if IsSep(path[0]) then Split(stack, path[1..])
    else
      var n := WordLen(path);
      Split(Apply(stack, path[..n]), path[n..])
  }

  /** A component that names something: no separator, not a dot name, and short enough for an entry. */
  predicate Clean(s: string) {
    s != "" && s != "." && s != ".." && |s| < FAT_NAME_MAX && forall i | 0 <= i < |s| :: !IsSep(s[i])
  }

  ghost predicate CleanStack(stack: seq<string>) {
    |stack| <= MAX_COMPONENTS && forall i | 0 <= i < |stack| :: Clean(stack[i])
  }

  lemma {:induction false} SplitClean(stack: seq<string>, path: string)
    requires CleanStack(stack)
    ensures CleanStack(Split(stack, path))
    decreases |path|
  {
    if path != "" {
      if IsSep(path[0]) {
        SplitClean(stack, path[1..]);
      } else {
        var n := WordLen(path);
        SplitClean(Apply(stack, path[..n]), path[n..]);
      }
    }
  }

  // ---- printing ----

  /** The canonical text of a list of names, without any limit. */
  function FullText(names: seq<string>): string {
    if names == [] then "" else FullText(names[..|names| - 1]) + "/" + names[|names| - 1]
  }

  /** How FsResolve extends Node.Path by one name inside its 512-byte buffer. */
  function AppendName(path: string, name: string): (r: string)
    ensures |path| < FS_PATH_MAX ==> |r| < FS_PATH_MAX
  {
    if |path| < FS_PATH_MAX - 2 then
      var full := path + "/" + name;
      if |full| > FS_PATH_MAX - 1 then full[..FS_PATH_MAX - 1] else full
    else path
  }

  function Printed(names: seq<string>): string {
    if names == [] then "" else AppendName(Printed(names[..|names| - 1]), names[|names| - 1])
  }

  /** Length of the canonical text. */
  function Size(names: seq<string>): nat {
    if names == [] then 0 else Size(names[..|names| - 1]) + 1 + |names[|names| - 1]|
  }

  lemma {:induction false} FullTextSize(names: seq<string>)
    ensures |FullText(names)| == Size(names)
  {
    if names != [] {
      FullTextSize(names[..|names| - 1]);
    }
  }

  lemma {:induction false} PrintedFits(names: seq<string>)
    requires CleanStack(names)
    ensures Size(names) < FS_PATH_MAX ==> Printed(names) == FullText(names)
    ensures |Printed(names)| < FS_PATH_MAX && |Printed(names)| <= Size(names)
  {
    FullTextSize(names);
    if names != [] {
      PrintedFits(names[..|names| - 1]);
      FullTextSize(names[..|names| - 1]);
    }
  }

  lemma {:induction false} SplitAppend(stack: seq<string>, s: string, t: string)
    requires t == "" || IsSep(t[0])
    ensures Split(stack, s + t) == Split(Split(stack, s), t)
    decreases |s|
  {
    if s == "" {
      assert s + t == t;
    } else if IsSep(s[0]) {
      assert (s + t)[1..] == s[1..] + t;
      SplitAppend(stack, s[1..], t);
    } else {
      var n := WordLen(s);
      WordLenAppend(s, t);
      assert (s + t)[..n] == s[..n] && (s + t)[n..] == s[n..] + t;
      SplitAppend(Apply(stack, s[..n]), s[n..], t);
    }
  }

  lemma {:induction false} WordLenAppend(s: string, t: string)
    requires t == "" || IsSep(t[0])
    ensures WordLen(s + t) == WordLen(s)
  {
    if s == "" {
      assert s + t == t;
    } else if !IsSep(s[0]) {
      assert (s + t)[1..] == s[1..] + t;
      WordLenAppend(s[1..], t);
    }
  }

  /** Printed text splits back to the names it was printed from. */
  lemma {:induction false} SplitFullText(names: seq<string>)
    requires CleanStack(names)
    ensures Split([], FullText(names)) == names
  {
    if names != [] {
      var front, last := names[..|names| - 1], names[|names| - 1];
      SplitFullText(front);
      var tail := "/" + last;
      SplitAppend([], FullText(front), tail);
      assert FullText(names) == FullText(front) + tail;
      assert tail[1..] == last;
      assert Split(front, tail) == Split(front, last);
      WordAlone(last);
      assert last[..|last|] == last && last[|last|..] == "";
      assert Split(front, last) == Split(Apply(front, last), "");
    }
  }

  lemma {:induction false} WordAlone(s: string)
    requires forall i | 0 <= i < |s| :: !IsSep(s[i])
    ensures WordLen(s) == |s|
  {
    if s != "" {
      WordAlone(s[1..]);
    }
  }

  /** Splitting never makes more text than it was given. */
  lemma {:induction false} SplitSize(stack: seq<string>, s: string)
    ensures Size(Split(stack, s)) <= Size(stack) + |s| + if s != "" && !IsSep(s[0]) then 1 else 0
    decreases |s|
  {
    if s != "" {
      if IsSep(s[0]) {
        SplitSize(stack, s[1..]);
      } else {
        var n := WordLen(s);
        var next := Apply(stack, s[..n]);
        assert Size(next) <= Size(stack) + 1 + n by {
          if |next| > |stack| {
            assert next[..|next| - 1] == stack;
          }
        }
        SplitSize(next, s[n..]);
      }
    }
  }

  lemma {:induction false} PrintedStart(names: seq<string>)
    ensures Printed(names) == "" || Printed(names)[0] == '/'
  {
    if names != [] {
      PrintedStart(names[..|names| - 1]);
    }
  }

  /** The text FsResolve prints splits back to the names exactly when it fits in 511 characters. */
  lemma PrintParse(names: seq<string>)
    requires CleanStack(names)
    ensures Split([], Printed(names)) == names <==> Size(names) < FS_PATH_MAX
  {
    PrintedFits(names);
    if Size(names) < FS_PATH_MAX {
      SplitFullText(names);
    } else {
      PrintedStart(names);
      SplitSize([], Printed(names));
    }
  }

  /** Three nested names of 200 letters: what is printed for them names something else. */
  lemma LongPathIsLost()
    ensures var name := seq(200, _ => 'a');
            CleanStack([name, name, name]) && Split([], Printed([name, name, name])) != [name, name, name]
  {
    hide Split, Printed, IsSep, Size;
    var name := seq(200, _ => 'a');
    var names := [name, name, name];
    NoSeparator('a');
    assert Clean(name);
    SizeSnoc([], name);
    SizeSnoc([name], name);
    SizeSnoc([name, name], name);
    assert names == [name, name] + [name] && [name, name] == [name] + [name] && [name] == [] + [name];
    SizeNone();
    PrintParse(names);
  }

  lemma SizeNone()
    ensures Size([]) == 0
  {
  }

  lemma SizeSnoc(names: seq<string>, name: string)
    ensures Size(names + [name]) == Size(names) + 1 + |name|
  {
    assert (names + [name])[..|names|] == names;
  }

  lemma NoSeparator(c: char)
    requires 'a' <= c <= 'z'
    ensures !IsSep(c)
  {
  }

  // ---- parsing an input ----

  /** FindVolume: the first volume of that name, ignoring case; |names| if there is none. */
  function FindName(names: seq<string>, want: string): (r: nat)
    ensures r <= |names|
    ensures r < |names| ==> NamesEqual(names[r], want)
    ensures forall i | 0 <= i < r :: !NamesEqual(names[i], want)
  {
    if names == [] || NamesEqual(names[0], want) then 0 else 1 + FindName(names[1..], want)
  }

  /** The first colon before any separator; |s| if there is none. */
  function ColonAt(s: string): (n: nat)
    ensures n <= |s| && (n < |s| ==> s[n] == ':')
  {
    var n := WordLen(s);
    FirstColon(s[..n], |s|)
  }

  function FirstColon(s: string, none: nat): (n: nat)
    requires |s| <= none
    ensures (n < |s| && s[n] == ':') || n == none
    ensures forall i | 0 <= i < n && i < |s| :: s[i] != ':'
    ensures n == none ==> forall i | 0 <= i < |s| :: s[i] != ':'
  {
    if s == "" then none
    else if s[0] == ':' then 0
    else
      var r := FirstColon(s[1..], none - 1);
      r + 1
  }

  /** ParseInput: the volume and the component stack an input stands for. */
  function Parse(w: World, input: string): (r: Result<(nat, seq<string>)>)
    requires w.Valid()
    ensures r.Ok? ==> r.value.0 < |w.names|
  {
    var colon := ColonAt(input);
    if colon < |input| then
      var v := FindName(w.names, input[..colon]);
      if v == |w.names| then
        Err(if FindName(w.parts, input[..colon]) < |w.parts| then Unsupported else NoVolume)
      else Ok((v, Split([], input[colon + 1..])))
    else if w.cwdVolume < 0 then Err(NoVolume)
    else if input != "" && IsSep(input[0]) then Ok((w.cwdVolume, Split([], input)))
    else Ok((w.cwdVolume, Split(Split([], w.cwdPath), input)))
  }

  // ---- resolving ----

  function Root(volume: nat, g: Geometry): Node {
    Node(volume, true, Entry("", FAT_ATTR_DIRECTORY, 0, g.rootCluster), "")
  }

  /** The loop of FsResolve. */
  function Walk(g: Geometry, node: Node, comps: seq<string>): Result<Node>
    decreases |comps|
  {
    if comps == [] then Ok(node)
    else if !node.isDir then Err(NotDir)
    else match FirstMatch(g.Listing(node.entry.cluster), comps[0])
         case None => Err(NotFound)
         case Some(e) => Walk(g, Node(node.volume, e.IsDir(), e, AppendName(node.path, e.name)), comps[1..])
  }

  function Finish(node: Node): Node {
    if node.path == "" then node.(path := "/") else node
  }

  /** FsResolve when no read fails. */
  function Resolve(w: World, input: string): Result<Node>
    requires w.Valid()
  {
    match Parse(w, input)
    case Err(s) => Err(s)
    case Ok((v, comps)) =>
      match Walk(w.geos[v], Root(v, w.geos[v]), comps)
      case Err(s) => Err(s)
      case Ok(node) => Ok(Finish(node))
  }

  /** The names, as stored on disk, of the entries a successful walk passes through. */
  function WalkNames(g: Geometry, node: Node, comps: seq<string>): (names: seq<string>)
    requires Walk(g, node, comps).Ok?
    ensures |names| == |comps|
    decreases |comps|
  {
    if comps == [] then []
    else
      var e := FirstMatch(g.Listing(node.entry.cluster), comps[0]).value;
      [e.name] + WalkNames(g, Node(node.volume, e.IsDir(), e, AppendName(node.path, e.name)), comps[1..])
  }

  /** The canonical path of a resolved input, with no limit on its length. */
  function CanonicalNames(w: World, input: string): seq<string>
    requires w.Valid() && Resolve(w, input).Ok?
  {
    var (v, comps) := Parse(w, input).value;
    WalkNames(w.geos[v], Root(v, w.geos[v]), comps)
  }

  lemma CleanSame(name: string, comp: string)
    requires NamesEqual(name, comp) && Clean(comp)
    ensures Clean(name)
  {
    assert |Lower(name)| == |Lower(comp)|;
    forall i | 0 <= i < |name|
      ensures LowerAscii(name[i]) == LowerAscii(comp[i])
    {
      assert Lower(name)[i] == Lower(comp)[i];
    }
  }

  /** First-match lookup cannot tell names apart that NamesEqual equates. */
  lemma {:induction false} FirstMatchSame(es: seq<Entry>, a: string, b: string)
    requires NamesEqual(a, b)
    ensures FirstMatch(es, a) == FirstMatch(es, b)
  {
    if es != [] {
      FirstMatchSame(es[1..], a, b);
    }
  }

  /** Walking the names found on disk retraces the walk that found them. */
  lemma {:induction false} WalkAgain(g: Geometry, node: Node, comps: seq<string>)
    requires Walk(g, node, comps).Ok? && CleanStack(comps)
    ensures var names := WalkNames(g, node, comps);
            CleanStack(names) && Walk(g, node, names) == Walk(g, node, comps)
    decreases |comps|
  {
    if comps != [] {
      var e := FirstMatch(g.Listing(node.entry.cluster), comps[0]).value;
      var next := Node(node.volume, e.IsDir(), e, AppendName(node.path, e.name));
      CleanSame(e.name, comps[0]);
      FirstMatchSame(g.Listing(node.entry.cluster), e.name, comps[0]);
      WalkAgain(g, next, comps[1..]);
      var names := WalkNames(g, node, comps);
      assert names[1..] == WalkNames(g, next, comps[1..]);
    }
  }

  /** The path a walk accumulates is the printed form of the names it passed. */
  lemma {:induction false} WalkPath(g: Geometry, node: Node, comps: seq<string>, before: seq<string>)
    requires Walk(g, node, comps).Ok? && node.path == Printed(before)
    ensures var r := Walk(g, node, comps).value;
            r.path == Printed(before + WalkNames(g, node, comps)) && r.volume == node.volume
    decreases |comps|
  {
    hide FirstMatch, FatFormat.Geometry.Listing, AppendName;
    var names := WalkNames(g, node, comps);
    if comps == [] {
      assert before + names == before;
    } else {
      var e := FirstMatch(g.Listing(node.entry.cluster), comps[0]).value;
      var next := Node(node.volume, e.IsDir(), e, AppendName(node.path, e.name));
      var more := before + [e.name];
      assert more[..|more| - 1] == before;
      WalkPath(g, next, comps[1..], more);
      assert before + names == more + names[1..];
    }
  }

  lemma {:induction false} WalkVolume(g: Geometry, node: Node, comps: seq<string>)
    requires Walk(g, node, comps).Ok?
    ensures Walk(g, node, comps).value.volume == node.volume
    decreases |comps|
  {
    if comps != [] {
      var e := FirstMatch(g.Listing(node.entry.cluster), comps[0]).value;
      WalkVolume(g, Node(node.volume, e.IsDir(), e, AppendName(node.path, e.name)), comps[1..]);
    }
  }

  lemma ResolvedVolume(w: World, input: string)
    requires w.Valid() && Resolve(w, input).Ok?
    ensures Resolve(w, input).value.volume < |w.names|
  {
    var (v, comps) := Parse(w, input).value;
    WalkVolume(w.geos[v], Root(v, w.geos[v]), comps);
  }

  /** FsChdir's effect on the world. */
  function Entered(w: World, input: string): (w': World)
    requires w.Valid() && Resolve(w, input).Ok?
    ensures w'.Valid()
  {
    ResolvedVolume(w, input);
    var node := Resolve(w, input).value;
    w.(cwdVolume := node.volume, cwdPath := node.path)
  }

  /** The canonical path of the directory an input names has at most 511 characters. */
  predicate PathFits(w: World, input: string)
    requires w.Valid()
  {
    Resolve(w, input).Ok? ==> Size(CanonicalNames(w, input)) < FS_PATH_MAX
  }

  /**
   * After a successful `cd`, "." is the directory just entered: same volume, same entry (so same cluster), same
   * path. The canonical path must fit in 511 characters; past that the stored text no longer names it (PrintParse).
   */
  lemma DotAfterChdir(w: World, input: string)
    requires w.Valid() && Resolve(w, input).Ok? && Resolve(w, input).value.isDir
    requires PathFits(w, input)
    ensures Resolve(Entered(w, input), ".") == Resolve(w, input)
  {
    hide Walk, WalkNames, Split, Parse, Size, FullText;
    var (v, comps) := Parse(w, input).value;
    ParseClean(w, input);
    WalkAgain(w.geos[v], Root(v, w.geos[v]), comps);
    PathSplits(w, input);
    DotParse(w, input);
  }

  /** The canonical path splits back to its names if and only if it fits. */
  lemma PathSplits(w: World, input: string)
    requires w.Valid() && Resolve(w, input).Ok? && Resolve(w, input).value.isDir
    ensures Split([], Resolve(w, input).value.path) == CanonicalNames(w, input) <==> PathFits(w, input)
  {
    hide Walk, WalkNames, Split, Parse, Size, FullText;
    var (v, comps) := Parse(w, input).value;
    var root, names := Root(v, w.geos[v]), CanonicalNames(w, input);
    ParseClean(w, input);
    WalkAgain(w.geos[v], root, comps);
    WalkPath(w.geos[v], root, comps, []);
    assert [] + names == names;
    PrintParse(names);
    RootPath();
  }

  lemma RootPath()
    ensures Split([], "/") == Split([], "")
  {
  }

  /**
   * The exact condition: after a successful `cd`, "." parses back to the volume and names of the directory
   * entered if and only if its canonical path has at most 511 characters.
   */
  lemma DotParsesBack(w: World, input: string)
    requires w.Valid() && Resolve(w, input).Ok? && Resolve(w, input).value.isDir
    ensures Parse(Entered(w, input), ".") == Ok((Resolve(w, input).value.volume, CanonicalNames(w, input)))
            <==> PathFits(w, input)
  {
    hide Walk, WalkNames, Split, Parse, Size;
    PathSplits(w, input);
    DotParse(w, input);
  }

  /** Different paths of a volume lead to different directories. */
  ghost predicate NoAliases(g: Geometry, root: Node) {
    forall a, b | Reaches(g, root, a) && Reaches(g, root, b) && Walk(g, root, a).value.isDir &&
                  Walk(g, root, a).value.entry == Walk(g, root, b).value.entry ::
      WalkNames(g, root, a) == WalkNames(g, root, b)
  }

  predicate Reaches(g: Geometry, root: Node, comps: seq<string>) {
    Walk(g, root, comps).Ok?
  }

  /**
   * The same for resolving: on a volume without aliases of directories, "." resolves to the directory entered if and
   * only if its canonical path has at most 511 characters.
   */
  lemma DotResolvesBack(w: World, input: string)
    requires w.Valid() && Resolve(w, input).Ok? && Resolve(w, input).value.isDir
    requires var v := Parse(w, input).value.0; NoAliases(w.geos[v], Root(v, w.geos[v]))
    ensures Resolve(Entered(w, input), ".") == Resolve(w, input) <==> PathFits(w, input)
  {
    if PathFits(w, input) {
      DotAfterChdir(w, input);
    } else if Resolve(Entered(w, input), ".") == Resolve(w, input) {
      var (v, comps) := Parse(w, input).value;
      var g, root := w.geos[v], Root(v, w.geos[v]);
      var names, node := CanonicalNames(w, input), Resolve(w, input).value;
      DotParse(w, input);
      var back := Split([], node.path);
      assert Reaches(g, root, comps) && Reaches(g, root, back);
      assert WalkNames(g, root, back) == names;
      ParseClean(w, input);
      WalkNamesSize(g, root, back);
      WalkPath(g, root, comps, []);
      assert [] + names == names;
      WalkAgain(g, root, comps);
      PrintedFits(names);
      PrintedStart(names);
      SplitSize([], node.path);
      assert false;
    }
  }

  /** What "." parses to in the directory entered. */
  lemma DotParse(w: World, input: string)
    requires w.Valid() && Resolve(w, input).Ok? && Resolve(w, input).value.isDir
    ensures Resolve(w, input).value.volume == Parse(w, input).value.0
    ensures Parse(Entered(w, input), ".") ==
            Ok((Parse(w, input).value.0, Split([], Resolve(w, input).value.path)))
  {
    var (v, comps) := Parse(w, input).value;
    WalkVolume(w.geos[v], Root(v, w.geos[v]), comps);
    DotKeeps(Split([], Resolve(w, input).value.path));
    assert ColonAt(".") == 1;
  }

  /** The names found on disk are as long as the names looked for. */
  lemma {:induction false} WalkNamesSize(g: Geometry, node: Node, comps: seq<string>)
    requires Walk(g, node, comps).Ok?
    ensures Size(WalkNames(g, node, comps)) == Size(comps)
    decreases |comps|
  {
    if comps != [] {
      var e := FirstMatch(g.Listing(node.entry.cluster), comps[0]).value;
      WalkNamesSize(g, Node(node.volume, e.IsDir(), e, AppendName(node.path, e.name)), comps[1..]);
      FirstMatchNamed(g.Listing(node.entry.cluster), comps[0]);
      SizeHead(comps);
      SizeHead(WalkNames(g, node, comps));
    }
  }

  lemma {:induction false} FirstMatchIs(es: seq<Entry>, want: string)
    requires FirstMatch(es, want).Some?
    ensures NamesEqual(FirstMatch(es, want).value.name, want)
  {
    if !NamesEqual(es[0].name, want) {
      FirstMatchIs(es[1..], want);
    }
  }

  lemma {:induction false} FirstMatchNamed(es: seq<Entry>, want: string)
    requires FirstMatch(es, want).Some?
    ensures |FirstMatch(es, want).value.name| == |want|
  {
    if NamesEqual(es[0].name, want) {
      assert |Lower(es[0].name)| == |Lower(want)|;
    } else {
      FirstMatchNamed(es[1..], want);
    }
  }

  lemma {:induction false} SizeHead(names: seq<string>)
    requires names != []
    ensures Size(names) == 1 + |names[0]| + Size(names[1..])
    decreases |names|
  {
    if |names| > 1 {
      SizeHead(names[..|names| - 1]);
      assert names[..|names| - 1][1..] == names[1..][..|names| - 2];
    }
  }

  lemma ParseClean(w: World, input: string)
    requires w.Valid() && Parse(w, input).Ok?
    ensures CleanStack(Parse(w, input).value.1)
  {
    var colon := ColonAt(input);
    if colon < |input| {
      SplitClean([], input[colon + 1..]);
    } else {
      SplitClean([], input);
      SplitClean([], w.cwdPath);
      SplitClean(Split([], w.cwdPath), input);
    }
  }

  lemma DotKeeps(stack: seq<string>)
    ensures Split(stack, ".") == stack
  {
    WordAlone(".");
    assert "."[..1] == "." && "."[1..] == "";
  }

  // ---- what the words of a path do ----

  lemma OneWord(stack: seq<string>, word: string)
    requires word != "" && forall i | 0 <= i < |word| :: !IsSep(word[i])
    ensures Split(stack, word) == Apply(stack, word)
  {
    hide Apply;
    WordAlone(word);
    assert word[..|word|] == word && word[|word|..] == "";
  }

  /** ".." drops the last name, and does nothing in the root. */
  lemma DotDotDrops(stack: seq<string>)
    ensures Split(stack, "..") == stack[..if stack == [] then 0 else |stack| - 1]
  {
    OneWord(stack, "..");
    assert stack == [] ==> stack[..0] == stack;
  }

  /** Going into a directory and up again leads back. */
  lemma UpAgain(stack: seq<string>, word: string)
    requires Clean(word) && |stack| < MAX_COMPONENTS
    ensures Split(stack, word) == stack + [word] && Split(stack, word + "/..") == stack
  {
    hide Split;
    OneWord(stack, word);
    SplitAppend(stack, word, "/..");
    LeadingSeparator(stack + [word], "..");
    DotDotDrops(stack + [word]);
    assert "/" + ".." == "/..";
  }

  lemma LeadingSeparator(stack: seq<string>, path: string)
    ensures Split(stack, "/" + path) == Split(stack, path)
  {
    assert ("/" + path)[1..] == path;
  }

  /** A name of 256 characters or more is cut at 255, and a 129th name is dropped. */
  lemma TooMuch(stack: seq<string>, word: string)
    requires |word| > 255 && forall i | 0 <= i < |word| :: !IsSep(word[i])
    ensures |stack| < 128 ==> Split(stack, word) == stack + [word[..255]]
    ensures |stack| >= 128 ==> Split(stack, word) == stack
  {
    OneWord(stack, word);
  }

  /** Names are equal when they have the same characters, upper and lower case letters of ASCII being the same. */
  lemma CaseOnly(a: string, b: string)
    ensures NamesEqual(a, b) <==>
              && |a| == |b|
              && forall i | 0 <= i < |a| ::
                   || a[i] == b[i]
                   || ('A' <= a[i] <= 'Z' && b[i] as int == a[i] as int + 32)
                   || ('A' <= b[i] <= 'Z' && a[i] as int == b[i] as int + 32)
  {
    if NamesEqual(a, b) {
      forall i | 0 <= i < |a|
        ensures LowerAscii(a[i]) == LowerAscii(b[i])
      {
        assert Lower(a)[i] == Lower(b)[i];
      }
    }
    SameLetters(a, b);
  }

  lemma SameLetters(a: string, b: string)
    ensures |a| == |b| && (forall i | 0 <= i < |a| :: LowerAscii(a[i]) == LowerAscii(b[i])) ==> NamesEqual(a, b)
  {
    if |a| == |b| && forall i | 0 <= i < |a| :: LowerAscii(a[i]) == LowerAscii(b[i]) {
      assert forall i | 0 <= i < |a| :: Lower(a)[i] == Lower(b)[i];
      assert Lower(a) == Lower(b);
    }
  }

  /** The walk down a chain of entries, each the first match in the directory before it. */
  ghost predicate Path(g: Geometry, cluster: nat, comps: seq<string>, es: seq<Entry>) {
    |es| == |comps| && forall i | 0 <= i < |es| :: PathStep(g, cluster, comps, es, i)
  }

  ghost predicate PathStep(g: Geometry, cluster: nat, comps: seq<string>, es: seq<Entry>, i: nat) {
    && i < |es| == |comps| && (i > 0 ==> es[i - 1].IsDir())
    && FirstMatch(g.Listing(if i == 0 then cluster else es[i - 1].cluster), comps[i]) == Some(es[i])
  }

  /** It ends at the last entry. */
  lemma {:induction false} WalkAlong(g: Geometry, node: Node, comps: seq<string>, es: seq<Entry>)
    requires node.isDir && Path(g, node.entry.cluster, comps, es)
    ensures Walk(g, node, comps).Ok?
    ensures es != [] ==> var r := Walk(g, node, comps).value; r.entry == es[|es| - 1] && r.isDir == es[|es| - 1].IsDir()
    decreases |comps|
  {
    hide FirstMatch, FatFormat.Geometry.Listing, AppendName;
    if es != [] {
      var e := es[0];
      var next := Node(node.volume, e.IsDir(), e, AppendName(node.path, e.name));
      assert PathStep(g, node.entry.cluster, comps, es, 0);
      if |es| > 1 {
        assert PathStep(g, node.entry.cluster, comps, es, 1);
        forall i | 0 <= i < |es| - 1
          ensures PathStep(g, e.cluster, comps[1..], es[1..], i)
        {
          assert PathStep(g, node.entry.cluster, comps, es, i + 1);
        }
        WalkAlong(g, next, comps[1..], es[1..]);
      } else {
        assert comps[1..] == [];
      }
    }
  }

  lemma {:induction false} WalkSplit(g: Geometry, node: Node, a: seq<string>, b: seq<string>)
    ensures Walk(g, node, a + b) ==
            match Walk(g, node, a)
            case Err(s) => Err(s)
            case Ok(n) => Walk(g, n, b)
    decreases |a|
  {
    hide FirstMatch, FatFormat.Geometry.Listing, AppendName;
    if a == [] {
      assert a + b == b;
    } else {
      assert (a + b)[1..] == a[1..] + b;
      var found := FirstMatch(g.Listing(node.entry.cluster), a[0]);
      if node.isDir && found.Some? {
        var e := found.value;
        WalkSplit(g, Node(node.volume, e.IsDir(), e, AppendName(node.path, e.name)), a[1..], b);
      }
    }
  }

  /** A name to be looked for in a file means "not a directory", one that is not there means "not found". */
  lemma WalkStops(g: Geometry, node: Node, front: seq<string>, es: seq<Entry>, c: string, rest: seq<string>)
    requires node.isDir && Path(g, node.entry.cluster, front, es)
    ensures var last := if es == [] then node.entry else es[|es| - 1];
            && (es != [] && !last.IsDir() ==> Walk(g, node, front + ([c] + rest)) == Err(NotDir))
            && ((es == [] || last.IsDir()) && FirstMatch(g.Listing(last.cluster), c) == None ==>
                  Walk(g, node, front + ([c] + rest)) == Err(NotFound))
  {
    hide FirstMatch, FatFormat.Geometry.Listing, AppendName;
    WalkAlong(g, node, front, es);
    WalkSplit(g, node, front, [c] + rest);
  }

  /** A walk that succeeds has succeeded up to every directory on the way, and those are directories. */
  lemma {:induction false} WalkFront(g: Geometry, node: Node, comps: seq<string>, n: nat)
    requires Walk(g, node, comps).Ok? && n < |comps|
    ensures Walk(g, node, comps[..n]).Ok? && Walk(g, node, comps[..n]).value.isDir
    decreases |comps|
  {
    hide FirstMatch, FatFormat.Geometry.Listing, AppendName;
    if n > 0 {
      var e := FirstMatch(g.Listing(node.entry.cluster), comps[0]).value;
      WalkFront(g, Node(node.volume, e.IsDir(), e, AppendName(node.path, e.name)), comps[1..], n - 1);
      assert comps[1..][..n - 1] == comps[..n][1..];
    }
  }

  // ---- where an input starts ----

  /** "name:path" starts at the root of the first volume of that name, whatever the case. */
  lemma VolumePrefix(w: World, prefix: string, path: string, v: nat)
    requires w.Valid() && v < |w.names| && NamesEqual(w.names[v], prefix)
    requires forall i | 0 <= i < v :: !NamesEqual(w.names[i], prefix)
    requires forall i | 0 <= i < |prefix| :: prefix[i] != ':' && !IsSep(prefix[i])
    ensures Parse(w, prefix + ":" + path) == Ok((v, Split([], path)))
  {
    hide Split, NamesEqual;
    ColonAfter(prefix, path);
    var input := prefix + ":" + path;
    assert input[..|prefix|] == prefix && input[|prefix| + 1..] == path;
  }

  /** An unknown name before the colon is "unsupported" if a partition has it, and "no volume" otherwise. */
  lemma NoSuchVolume(w: World, prefix: string, path: string)
    requires w.Valid() && forall i | 0 <= i < |w.names| :: !NamesEqual(w.names[i], prefix)
    requires forall i | 0 <= i < |prefix| :: prefix[i] != ':' && !IsSep(prefix[i])
    ensures var known := exists i :: 0 <= i < |w.parts| && NamesEqual(w.parts[i], prefix);
            Parse(w, prefix + ":" + path) == Err(if known then Unsupported else NoVolume)
  {
    hide NamesEqual;
    ColonAfter(prefix, path);
    assert (prefix + ":" + path)[..|prefix|] == prefix;
    var v, p := FindName(w.names, prefix), FindName(w.parts, prefix);
    assert v == |w.names|;
    if p < |w.parts| {
      assert NamesEqual(w.parts[p], prefix);
    }
  }

  lemma ColonAfter(prefix: string, path: string)
    requires forall i | 0 <= i < |prefix| :: prefix[i] != ':' && !IsSep(prefix[i])
    ensures ColonAt(prefix + ":" + path) == |prefix|
  {
    var s := prefix + ":" + path;
    assert s[|prefix|] == ':' && !IsSep(':');
    var n := WordLen(s);
    assert forall i | 0 <= i <= |prefix| :: !IsSep(s[i]);
    assert s[..n][|prefix|] == ':';
    assert forall i | 0 <= i < |prefix| :: s[..n][i] == prefix[i];
  }

  /** Without a volume, a path starts at the root if it starts with a separator, and else where one is. */
  lemma NoPrefix(w: World, input: string)
    requires w.Valid() && w.cwdVolume >= 0 && forall i | 0 <= i < |input| :: input[i] != ':'
    ensures Parse(w, "/" + input) == Ok((w.cwdVolume as nat, Split([], input)))
    ensures input != "" && !IsSep(input[0]) ==>
              Parse(w, input) == Ok((w.cwdVolume as nat, Split(Split([], w.cwdPath), input)))
  {
    hide Split;
    LeadingSeparator([], input);
    NoColon(input);
    NoColon("/" + input);
  }

  lemma NoColon(s: string)
    requires forall i | 0 <= i < |s| :: s[i] != ':'
    ensures ColonAt(s) == |s|
  {
    var n := WordLen(s);
    assert forall i | 0 <= i < n :: s[..n][i] == s[i];
  }

  // ---- ".." after FsChdir ----

  /** In the directory just entered, ".." stands for its path without the last name. */
  lemma DotDotParses(w: World, input: string)
    requires w.Valid() && Resolve(w, input).Ok? && Resolve(w, input).value.isDir && PathFits(w, input)
    ensures var names := CanonicalNames(w, input);
            Parse(Entered(w, input), "..") ==
              Ok((Parse(w, input).value.0, names[..if names == [] then 0 else |names| - 1]))
  {
    hide Walk, WalkNames, Split, Parse, Size;
    PathSplits(w, input);
    DotParse(w, input);
    NoColon("..");
    EnteredAt(w, input);
    NoPrefix(Entered(w, input), "..");
    DotDotDrops(CanonicalNames(w, input));
  }

  lemma EnteredAt(w: World, input: string)
    requires w.Valid() && Resolve(w, input).Ok?
    ensures var w' := Entered(w, input);
            && w'.cwdVolume == Resolve(w, input).value.volume == Parse(w, input).value.0
            && w'.cwdPath == Resolve(w, input).value.path
  {
    var (v, comps) := Parse(w, input).value;
    WalkVolume(w.geos[v], Root(v, w.geos[v]), comps);
  }

  /** The walk to the directory above the one an input names. */
  function WalkUp(w: World, input: string): Result<Node>
    requires w.Valid() && Resolve(w, input).Ok? && CanonicalNames(w, input) != []
  {
    var names, v := CanonicalNames(w, input), Parse(w, input).value.0;
    Walk(w.geos[v], Root(v, w.geos[v]), names[..|names| - 1])
  }

  /** So it resolves to the parent directory. */
  lemma DotDotAfterChdir(w: World, input: string)
    requires w.Valid() && Resolve(w, input).Ok? && Resolve(w, input).value.isDir && PathFits(w, input)
    requires CanonicalNames(w, input) != []
    ensures WalkUp(w, input).Ok? && WalkUp(w, input).value.isDir
    ensures Resolve(Entered(w, input), "..") == Ok(Finish(WalkUp(w, input).value))
  {
    hide Walk, WalkNames, Split, Parse, Size;
    var (v, comps) := Parse(w, input).value;
    var names := CanonicalNames(w, input);
    ParseClean(w, input);
    WalkAgain(w.geos[v], Root(v, w.geos[v]), comps);
    WalkFront(w.geos[v], Root(v, w.geos[v]), names, |names| - 1);
    DotDotParses(w, input);
  }
}
