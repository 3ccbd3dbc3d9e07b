/** kernel/fs.c: path resolution over mounted volumes, and the current directory. */
module FileSystem {
  import opened Common
  import opened FatFormat
  import opened Paths
  import opened FatVolume
  import BlockDev

  /** FS_VOLUME. */
  datatype FsVolume = FsVolume(name: string, fat: Volume)

  class FileSys {
    const block: BlockDev.BlockLayer
    const statics: Statics
    const volumes: seq<FsVolume>
    const partNames: seq<string>
    var cwdVolume: int
    var cwdPath: string
    /** The static component stack. */
    var components: seq<string>

    /** Everything a resolution may write besides the block layer. */
    ghost function Buffers(): set<object> {
      {statics.lfn, statics.name}
      + (set i | 0 <= i < |volumes| :: volumes[i].fat as object)
      + (set i | 0 <= i < |volumes| :: volumes[i].fat.fatBuffer as object)
      + (set i | 0 <= i < |volumes| :: volumes[i].fat.sectorBuffer as object)
    }

    /** Mounted volumes share the block layer and the statics, and nothing else. */
    ghost predicate Separate() {
      && (forall i | 0 <= i < |volumes| :: volumes[i].fat.block == block && volumes[i].fat.statics == statics)
      && (forall i, j | 0 <= i < |volumes| && 0 <= j < |volumes| && i != j ::
            && volumes[i].fat != volumes[j].fat
            && volumes[i].fat.fatBuffer != volumes[j].fat.fatBuffer
            && volumes[i].fat.fatBuffer != volumes[j].fat.sectorBuffer)
    }

    ghost predicate Valid()
      reads this, block`devices, Buffers()
    {
      && Separate()
      && (forall i | 0 <= i < |volumes| :: volumes[i].fat.Valid())
      && -1 <= cwdVolume < |volumes|
    }

    ghost function AsWorld(): World
      reads this`cwdVolume, this`cwdPath
    {
      World(seq(|volumes|, i requires 0 <= i < |volumes| => volumes[i].name),
            seq(|volumes|, i requires 0 <= i < |volumes| => volumes[i].fat.geo),
            partNames, cwdVolume, cwdPath)
    }

    constructor (block: BlockDev.BlockLayer, statics: Statics, volumes: seq<FsVolume>, partNames: seq<string>)
      ensures this.block == block && this.statics == statics && this.volumes == volumes && this.partNames == partNames
      ensures cwdVolume == (if volumes == [] then -1 else 0) && cwdPath == "/"
    {
      this.block, this.statics, this.volumes, this.partNames := block, statics, volumes, partNames;
      cwdVolume := if |volumes| > 0 then 0 else -1;
      cwdPath := "/";
      components := [];
    }

    /** PushComponent, and the dot names SplitInto handles itself. */
    method ApplyWord(word: string)
      modifies this`components
      ensures components == Apply(old(components), word)
    {
      if |word| == 1 && word[0] == '.' {
        assert word == ".";
        return;
      }
      if |word| == 2 && word[0] == '.' && word[1] == '.' {
        assert word == "..";
        if |components| > 0 {
          components := components[..|components| - 1];
        }
        return;
      }
      if |components| >= MAX_COMPONENTS {
        return;
      }
      var length := |word|;
      if length > FAT_NAME_MAX - 1 {
        length := FAT_NAME_MAX - 1;
      }
      assert word[..|word|] == word;
      components := components + [word[..length]];
    }

    static method SkipSeparators(path: string, p0: nat) returns (p: nat)
      requires p0 <= |path|
      ensures p0 <= p <= |path| && (p < |path| ==> !IsSep(path[p]))
      ensures forall k | p0 <= k < p :: IsSep(path[k])
    {
      p := p0;
      while p < |path| && IsSep(path[p])
        invariant p0 <= p <= |path| && forall k | p0 <= k < p :: IsSep(path[k])
      {
        p := p + 1;
      }
    }

    static method WordEnd(path: string, start: nat) returns (p: nat)
      requires start <= |path|
      ensures p == start + WordLen(path[start..])
    {
      p := start;
      while p < |path| && !IsSep(path[p])
        invariant start <= p <= |path| && p - start + WordLen(path[p..]) == WordLen(path[start..])
      {
        assert path[p..][1..] == path[p + 1..];
        p := p + 1;
      }
    }

    method SplitInto(path: string)
      modifies this`components
      ensures components == Split(old(components), path)
    {
      hide Split, Apply, WordLen;
      var p := 0;
      assert path[0..] == path;
      while p < |path|
        invariant 0 <= p <= |path|
        invariant Split(components, path[p..]) == Split(old(components), path)
        decreases |path| - p
      {
        var start := SkipSeparators(path, p);
        SkippedSeparators(components, path, p, start);
        p := WordEnd(path, start);
        SplitWord(components, path, start, p);
        if p > start {
          ApplyWord(path[start..p]);
        }
      }
      SplitNothing(components, path[p..]);
    }

    static lemma SplitNothing(stack: seq<string>, path: string)
      requires path == ""
      ensures Split(stack, path) == stack
    {
    }

    static lemma {:induction false} SkippedSeparators(stack: seq<string>, path: string, p: nat, start: nat)
      requires p <= start <= |path| && forall k | p <= k < start :: IsSep(path[k])
      ensures Split(stack, path[start..]) == Split(stack, path[p..])
      decreases start - p
    {
      if p < start {
        assert path[p..][1..] == path[p + 1..];
        SkippedSeparators(stack, path, p + 1, start);
      }
    }

    static lemma SplitWord(stack: seq<string>, path: string, start: nat, p: nat)
      requires start <= |path| && (start < |path| ==> !IsSep(path[start])) && p == start + WordLen(path[start..])
      ensures start <= p <= |path| && (p == start <==> start == |path|)
      ensures p > start ==> Split(stack, path[start..]) == Split(Apply(stack, path[start..p]), path[p..])
    {
      hide Apply;
      if start < |path| {
        assert path[start..][..p - start] == path[start..p] && path[start..][p - start..] == path[p..];
      }
    }

    /** FindVolume and PartitionExists: a linear search that ignores case. */
    static method FindByName(names: seq<string>, want: string) returns (r: nat)
      ensures r == FindName(names, want)
    {
      r := 0;
      while r < |names|
        invariant r <= |names| && r + FindName(names[r..], want) == FindName(names, want)
      {
        assert names[r..][1..] == names[r + 1..];
        var same := Volume.CompareNames(names[r], want);
        if same {
          return;
        }
        r := r + 1;
      }
    }

    /** The scan for a volume prefix at the start of ParseInput. */
    static method FindColon(input: string) returns (n: nat)
      ensures n == ColonAt(input)
    {
      n := 0;
      ghost var word := input[..WordLen(input)];
      while n < |input| && !IsSep(input[n])
        invariant n <= |word| && n + FirstColon(word[n..], |input| - n) == ColonAt(input)
      {
        assert n < |word|;
        assert word[n..][1..] == word[n + 1..];
        if input[n] == ':' {
          return;
        }
        n := n + 1;
      }
      n := |input|;
    }

    static lemma ColonBound(input: string)
      ensures ColonAt(input) <= |input|
    {
    }

    method ParseInput(input: string) returns (r: Result<nat>)
      requires -1 <= cwdVolume < |volumes|
      modifies this`components
      ensures match Parse(AsWorld(), input)
              case Err(s) => r == Err(s)
              case Ok((v, comps)) => r == Ok(v) && components == comps
    {
      hide Split, FindName, ColonAt;
      ColonBound(input);
      var colon := FindColon(input);
      components := [];
      if colon < |input| {
        var names := seq(|volumes|, i requires 0 <= i < |volumes| => volumes[i].name);
        var v := FindByName(names, input[..colon]);
        if v == |volumes| {
          var p := FindByName(partNames, input[..colon]);
          return Err(if p < |partNames| then Unsupported else NoVolume);
        }
        SplitInto(input[colon + 1..]);
        return Ok(v);
      }
      if cwdVolume < 0 {
        return Err(NoVolume);
      }
      if |input| > 0 && IsSep(input[0]) {
        SplitInto(input);
        return Ok(cwdVolume);
      }
      SplitInto(cwdPath);
      SplitInto(input);
      return Ok(cwdVolume);
    }

    /** The device holds every directory that the walk looks into. */
    static ghost predicate WalkInside(fat: Volume, node: Node, comps: seq<string>)
      reads fat.block`devices
      decreases |comps|
    {
      comps != [] && node.isDir ==>
        && fat.OnDevice(node.entry.cluster)
        && match FirstMatch(fat.geo.Listing(node.entry.cluster), comps[0])
           case None => true
           case Some(e) => WalkInside(fat, Node(node.volume, e.IsDir(), e, AppendName(node.path, e.name)), comps[1..])
    }

    /** Walking the names found looks into the same directories. */
    static lemma {:induction false} InsideAgain(fat: Volume, node: Node, comps: seq<string>)
      requires Walk(fat.geo, node, comps).Ok? && WalkInside(fat, node, comps)
      ensures WalkInside(fat, node, WalkNames(fat.geo, node, comps))
      decreases |comps|
    {
      if comps != [] {
        var es := fat.geo.Listing(node.entry.cluster);
        var e := FirstMatch(es, comps[0]).value;
        FirstMatchIs(es, comps[0]);
        FirstMatchSame(es, e.name, comps[0]);
        InsideAgain(fat, Node(node.volume, e.IsDir(), e, AppendName(node.path, e.name)), comps[1..]);
        var names := WalkNames(fat.geo, node, comps);
        assert names[0] == e.name;
        assert names[1..] ==
               WalkNames(fat.geo, Node(node.volume, e.IsDir(), e, AppendName(node.path, e.name)), comps[1..]);
      }
    }

    /** Resolving the input cannot fail to read: the driver answers, and the device holds what is looked into. */
    ghost predicate CanResolve(input: string)
      requires -1 <= cwdVolume < |volumes|
      reads this`cwdVolume, this`cwdPath, block`devices, block`clock
      reads set i | 0 <= i < |volumes| :: volumes[i].fat.block`devices
    {
      && block.Answering()
      && match Parse(AsWorld(), input)
         case Err(s) => true
         case Ok((v, comps)) => WalkInside(volumes[v].fat, Root(v, volumes[v].fat.geo), comps)
    }

    /** The loop of FsResolve over the component stack. */
    static method WalkComponents(fat: Volume, root: Node, comps: seq<string>) returns (r: Result<Node>)
      requires fat.Valid()
      modifies fat`fatBufferLba, fat`fatBufferValid, fat.fatBuffer, fat.sectorBuffer, fat.statics.lfn, fat.statics.name
      modifies fat.block`clock, fat.block`log, fat.block`failed, fat.block`lost, fat.block.bounce
      ensures fat.Valid() && fat.block.failed >= old(fat.block.failed)
      ensures r.Ok? || fat.block.failed == old(fat.block.failed) ==> r == Walk(fat.geo, root, comps)
      ensures old(fat.block.clock) <= fat.block.clock
      ensures old(fat.block.Answering()) && WalkInside(fat, root, comps) ==>
                fat.block.failed == old(fat.block.failed) && fat.block.Answering()
    {
      hide FatFormat.Geometry.Listing, FirstMatch, AppendName, Volume.Valid, Volume.OnDevice,
        BlockDev.BlockLayer.Answering;
      ghost var healthy := fat.block.Answering() && WalkInside(fat, root, comps);
      assert comps[0..] == comps;
      var node, i := root, 0;
      while i < |comps| && node.isDir
        invariant 0 <= i <= |comps| && fat.Valid() && fat.block.failed >= old(fat.block.failed)
        invariant Walk(fat.geo, node, comps[i..]) == Walk(fat.geo, root, comps)
        invariant old(fat.block.clock) <= fat.block.clock
        invariant healthy ==> && fat.block.failed == old(fat.block.failed) && fat.block.Answering()
                              && WalkInside(fat, node, comps[i..])
      {
        assert comps[i..][1..] == comps[i + 1..];
        var found := fat.Lookup(node.entry.cluster, comps[i]);
        if found.None? {
          return Err(NotFound);
        }
        var e := found.value;
        node := Node(node.volume, e.IsDir(), e, AppendName(node.path, e.name));
        i := i + 1;
      }
      r := if i < |comps| then Err(NotDir) else Ok(node);
    }

    /**
     * FsResolve. A success is always the node the disk's contents define, whatever reads failed on the way; when
     * none fails the status is exact too.
     */
    method ResolvePath(input: string) returns (r: Result<Node>)
      requires Valid()
      modifies this`components, Buffers(), block`clock, block`log, block`failed, block`lost, block.bounce
      ensures Valid() && block.failed >= old(block.failed)
      ensures cwdVolume == old(cwdVolume) && cwdPath == old(cwdPath)
      ensures r.Ok? || block.failed == old(block.failed) ==> r == Resolve(AsWorld(), input)
      ensures old(block.clock) <= block.clock
      ensures old(CanResolve(input)) ==> block.failed == old(block.failed) && block.Answering()
    {
      var parsed := ParseInput(input);
      if parsed.Err? {
        return Err(parsed.status);
      }
      var v := parsed.value;
      var fat := volumes[v].fat;
      var walked := WalkComponents(fat, Root(v, fat.geo), components);
      r := match walked case Err(s) => Err(s) case Ok(node) => Ok(Finish(node));
    }

    /** FsChdir: on success the current directory is the one resolved; otherwise nothing changes. */
    method ChangeDir(input: string) returns (r: Result<Node>)
      requires Valid()
      modifies this`components, this`cwdVolume, this`cwdPath, Buffers()
      modifies block`clock, block`log, block`failed, block`lost, block.bounce
      ensures Valid() && block.failed >= old(block.failed)
      ensures r.Ok? ==> && r == Resolve(old(AsWorld()), input) && r.value.isDir
                        && AsWorld() == Entered(old(AsWorld()), input)
      ensures r.Err? ==> AsWorld() == old(AsWorld())
      ensures block.failed == old(block.failed) ==>
                r == match Resolve(old(AsWorld()), input)
                     case Err(s) => Err(s)
                     case Ok(node) => if node.isDir then Ok(node) else Err(NotDir)
      ensures old(block.clock) <= block.clock
      ensures old(CanResolve(input)) ==> block.failed == old(block.failed) && block.Answering()
    {
      r := ResolvePath(input);
      if r.Err? {
        return;
      }
      if !r.value.isDir {
        return Err(NotDir);
      }
      ResolvedVolume(AsWorld(), input);
      cwdVolume := r.value.volume;
      cwdPath := r.value.path;
    }

    /** In a directory just entered, "." looks into the directories on the way there. */
    lemma CanResolveDot(w: World, input: string)
      requires w.Valid() && Resolve(w, input).Ok? && Resolve(w, input).value.isDir && PathFits(w, input)
      requires AsWorld() == Entered(w, input) && block.Answering()
      requires var (v, comps) := Parse(w, input).value; WalkInside(volumes[v].fat, Root(v, volumes[v].fat.geo), comps)
      ensures CanResolve(".")
    {
      hide WalkInside, BlockDev.BlockLayer.Answering, Split, Walk;
      var (v, comps) := Parse(w, input).value;
      assert AsWorld().geos[v] == volumes[v].fat.geo;
      DotParsesBack(w, input);
      InsideAgain(volumes[v].fat, Root(v, volumes[v].fat.geo), comps);
      WalkVolume(w.geos[v], Root(v, w.geos[v]), comps);
    }

    /** `cd` somewhere, then look at ".": the end-to-end form of DotAfterChdir, under any read failures. */
    method ChangeDirThenDot(input: string) returns (entered: Result<Node>, dot: Result<Node>)
      requires Valid()
      modifies this`components, this`cwdVolume, this`cwdPath, Buffers()
      modifies block`clock, block`log, block`failed, block`lost, block.bounce
      ensures Valid()
      ensures entered.Ok? ==> entered == Resolve(old(AsWorld()), input) && entered.value.isDir
                              && AsWorld() == Entered(old(AsWorld()), input)
      ensures entered.Err? ==> AsWorld() == old(AsWorld()) && dot == Err(NotFound)
      ensures old(CanResolve(input)) ==> entered == match Resolve(old(AsWorld()), input)
                                                    case Err(s) => Err(s)
                                                    case Ok(node) => if node.isDir then Ok(node) else Err(NotDir)
      ensures entered.Ok? && PathFits(old(AsWorld()), input) ==>
                dot.Ok? || block.failed == old(block.failed) || old(CanResolve(input)) ==> dot == entered
    {
      hide Walk, Parse, Separate, Volume.Valid, WalkInside;
      ghost var w, can := AsWorld(), CanResolve(input);
      entered := ChangeDir(input);
      dot := Err(NotFound);
      if entered.Ok? {
        if can && PathFits(w, input) {
          CanResolveDot(w, input);
        }
        dot := ResolvePath(".");
        if PathFits(old(AsWorld()), input) {
          DotAfterChdir(old(AsWorld()), input);
        }
      }
    }

    /** `cd` somewhere, then `cd ..`: one arrives in the directory above. */
    method ChangeDirThenUp(input: string) returns (entered: Result<Node>, up: Result<Node>)
      requires Valid()
      modifies this`components, this`cwdVolume, this`cwdPath, Buffers()
      modifies block`clock, block`log, block`failed, block`lost, block.bounce
      ensures Valid()
      ensures entered.Ok? ==> entered == Resolve(old(AsWorld()), input) && entered.value.isDir
      ensures entered.Ok? && PathFits(old(AsWorld()), input) && CanonicalNames(old(AsWorld()), input) != [] ==>
                up.Ok? || block.failed == old(block.failed) ==>
                  && WalkUp(old(AsWorld()), input).Ok? && up == Ok(Finish(WalkUp(old(AsWorld()), input).value))
                  && cwdPath == up.value.path && cwdVolume == up.value.volume
    {
      hide Walk, WalkNames, Parse, Separate, Volume.Valid, WalkInside;
      ghost var w := AsWorld();
      entered := ChangeDir(input);
      up := Err(NotFound);
      if entered.Ok? {
        up := ChangeDir("..");
        if PathFits(w, input) && CanonicalNames(w, input) != [] {
          DotDotAfterChdir(w, input);
        }
      }
    }
  }
}
