/** kernel/explorer.c: the sorted list of a folder, its selection and its scroll position. */
module Explorer {
  import opened Common
  import FatFormat

  const MAX_ENTRIES := 1024
  const NAME_STORED := 120

  datatype Kind = Dir | Wav | Text | File

  /** ENTRY; a name that does not fit its field is cut off and the entry marked as not usable. */
  datatype Item = Item(name: string, size: nat, kind: Kind, usable: bool, hidden: bool)

  datatype SortMode = ByName | BySize | ByType

  // ---- comparing names (kernel/ui.c) ----

  /** The first character in lower case, or the terminating NUL. */
  function Head(s: string): int {
    if s == "" then 0 else LowerAscii(s[0]) as int
  }

  /** The sign UiCompareNames returns. */
  function NameCmp(a: string, b: string): int {
    if a != "" && b != "" && Head(a) == Head(b) then NameCmp(a[1..], b[1..]) else Head(a) - Head(b)
  }

  lemma HeadPositive(s: string)
    requires NoNul(s)
    ensures s != "" <==> Head(s) > 0
    ensures s != "" ==> NoNul(s[1..])
  {
    if s != "" {
      assert s[0] in s;
    }
  }

  lemma {:induction false} NameCmpSwap(a: string, b: string)
    ensures NameCmp(a, b) == -NameCmp(b, a)
  {
    if a != "" && b != "" && Head(a) == Head(b) {
      NameCmpSwap(a[1..], b[1..]);
    }
  }

  /** Names compare as equal exactly when they differ in case only. */
  lemma {:induction false} NameCmpZero(a: string, b: string)
    requires NoNul(a) && NoNul(b)
    ensures NameCmp(a, b) == 0 <==> Lower(a) == Lower(b)
  {
    HeadPositive(a);
    HeadPositive(b);
    if a != "" && b != "" {
      assert Lower(a) == [LowerAscii(a[0])] + Lower(a[1..]);
      assert Lower(b) == [LowerAscii(b[0])] + Lower(b[1..]);
      if Head(a) == Head(b) {
        NameCmpZero(a[1..], b[1..]);
        assert Lower(a)[1..] == Lower(a[1..]) && Lower(b)[1..] == Lower(b[1..]);
      } else {
        assert Lower(a)[0] != Lower(b)[0];
      }
    }
  }

  /** "Not after" is transitive, strictly if either step is strict. */
  lemma {:induction false} NameCmpTransitive(a: string, b: string, c: string)
    requires NoNul(a) && NoNul(b) && NoNul(c)
    requires NameCmp(a, b) <= 0 && NameCmp(b, c) <= 0
    ensures NameCmp(a, c) <= 0
    ensures NameCmp(a, b) < 0 || NameCmp(b, c) < 0 ==> NameCmp(a, c) < 0
  {
    HeadPositive(a);
    HeadPositive(b);
    HeadPositive(c);
    if a != "" && b != "" && c != "" && Head(a) == Head(b) == Head(c) {
      NameCmpTransitive(a[1..], b[1..], c[1..]);
    }
  }

  /**
   * The first place where two names differ by more than case decides: the smaller letter comes first, and a name that
   * ends there comes before one that goes on.
   */
  lemma {:induction false} FirstDifference(a: string, b: string, k: nat)
    requires NoNul(a) && NoNul(b) && k <= |a| && k < |b|
    requires forall i | 0 <= i < k :: LowerAscii(a[i]) == LowerAscii(b[i])
    requires k < |a| ==> LowerAscii(a[k]) < LowerAscii(b[k])
    ensures NameCmp(a, b) < 0 < NameCmp(b, a)
  {
    HeadPositive(b);
    if k > 0 {
      FirstDifference(a[1..], b[1..], k - 1);
    }
  }

  /** UiCompareNames. */
  method CompareNames(a: string, b: string) returns (r: int)
    requires NoNul(a) && NoNul(b)
    ensures r == NameCmp(a, b)
  {
    var i := 0;
    while i < |a| && Head(a[i..]) == Head(b[Min(i, |b|)..])
      invariant 0 <= i <= |a| && i <= |b|
      invariant NameCmp(a, b) == NameCmp(a[i..], b[i..])
      decreases |a| - i
    {
      assert a[i] in a;
      assert a[i..][1..] == a[i + 1..] && i < |b| ==> b[i..][1..] == b[i + 1..];
      i := i + 1;
    }
    r := Head(a[i..]) - Head(b[i..]);
  }

  /** The text after the last dot. */
  function Extension(name: string): (ext: string)
    ensures NoNul(name) ==> NoNul(ext)
  {
    if name == "" then ""
    else if '.' in name[1..] then Extension(name[1..])
    else if name[0] == '.' then name[1..]
    else ""
  }

  /** ExtensionOf. */
  method ExtensionOf(name: string) returns (ext: string)
    ensures ext == Extension(name)
  {
    var dot, p := -1, 0;
    while p < |name|
      invariant 0 <= p <= |name| && -1 <= dot <= p
      invariant dot == -1 ==> forall k | 0 <= k < p :: name[k] != '.'
      invariant dot != -1 ==> dot > 0 && name[dot - 1] == '.' && forall k | dot <= k < p :: name[k] != '.'
    {
      if name[p] == '.' {
        dot := p + 1;
      }
      p := p + 1;
    }
    ext := if dot == -1 then "" else name[dot..];
    ExtensionIs(name, dot);
  }

  lemma {:induction false} ExtensionIs(name: string, dot: int)
    requires -1 <= dot <= |name|
    requires dot == -1 ==> forall k | 0 <= k < |name| :: name[k] != '.'
    requires dot != -1 ==> dot > 0 && name[dot - 1] == '.' && forall k | dot <= k < |name| :: name[k] != '.'
    ensures Extension(name) == if dot == -1 then "" else name[dot..]
  {
    if dot > 1 {
      assert name[1..][dot - 2] == '.';
      assert name[1..][dot - 1..] == name[dot..];
      ExtensionIs(name[1..], dot - 1);
    }
  }

  /** What follows the last dot is the extension, and a name without a dot has none. */
  lemma ExtensionAfterDot(base: string, ext: string)
    requires '.' !in ext
    ensures Extension(base + "." + ext) == ext && Extension(ext) == ""
  {
    var name := base + "." + ext;
    assert name[|base| + 1..] == ext;
    ExtensionIs(name, |base| + 1);
    ExtensionIs(ext, -1);
  }

  // ---- the order ----

  predicate Less(mode: SortMode, a: Item, b: Item) {
    if (a.kind == Dir) != (b.kind == Dir) then a.kind == Dir
    else if a.kind != Dir && mode == BySize && a.size != b.size then a.size > b.size
    else if a.kind != Dir && mode == ByType && NameCmp(Extension(a.name), Extension(b.name)) != 0
    then NameCmp(Extension(a.name), Extension(b.name)) < 0
    else NameCmp(a.name, b.name) < 0
  }

  lemma LessAsymmetric(mode: SortMode, a: Item, b: Item)
    ensures !(Less(mode, a, b) && Less(mode, b, a))
  {
    NameCmpSwap(a.name, b.name);
    NameCmpSwap(Extension(a.name), Extension(b.name));
  }

  /** In every mode "not less" is transitive: EntryLess is a strict weak order. */
  lemma NotLessTransitive(mode: SortMode, a: Item, b: Item, c: Item)
    requires NoNul(a.name) && NoNul(b.name) && NoNul(c.name)
    requires !Less(mode, b, a) && !Less(mode, c, b)
    ensures !Less(mode, c, a)
  {
    Ordered(a.name, b.name, c.name);
    Ordered(Extension(a.name), Extension(b.name), Extension(c.name));
    hide NameCmp, Extension;
  }

  lemma LessTransitive(mode: SortMode, a: Item, b: Item, c: Item)
    requires NoNul(a.name) && NoNul(b.name) && NoNul(c.name)
    requires Less(mode, a, b) && Less(mode, b, c)
    ensures Less(mode, a, c)
  {
    Ordered(a.name, b.name, c.name);
    Ordered(Extension(a.name), Extension(b.name), Extension(c.name));
    hide NameCmp, Extension;
  }

  /** Everything the comparison of three names can show. */
  lemma Ordered(a: string, b: string, c: string)
    requires NoNul(a) && NoNul(b) && NoNul(c)
    ensures NameCmp(b, a) == -NameCmp(a, b) && NameCmp(c, b) == -NameCmp(b, c) && NameCmp(c, a) == -NameCmp(a, c)
    ensures NameCmp(a, b) <= 0 && NameCmp(b, c) <= 0 ==>
              NameCmp(a, c) <= 0 && (NameCmp(a, c) == 0 ==> NameCmp(a, b) == 0 && NameCmp(b, c) == 0)
  {
    NameCmpSwap(a, b);
    NameCmpSwap(b, c);
    NameCmpSwap(a, c);
    if NameCmp(a, b) <= 0 && NameCmp(b, c) <= 0 {
      NameCmpTransitive(a, b, c);
    }
  }

  /** Items neither of which is less than the other have names that differ in case only. */
  lemma SameRank(mode: SortMode, a: Item, b: Item)
    requires NoNul(a.name) && NoNul(b.name) && !Less(mode, a, b) && !Less(mode, b, a)
    ensures Lower(a.name) == Lower(b.name)
    ensures a.name == "" ==> b.name == ""
  {
    hide NameCmp, Extension;
    NameCmpSwap(a.name, b.name);
    NameCmpSwap(Extension(a.name), Extension(b.name));
    NameCmpZero(a.name, b.name);
    assert |Lower(a.name)| == |Lower(b.name)|;
  }

  ghost predicate Indices(s: seq<nat>, n: nat) {
    forall k | 0 <= k < |s| :: s[k] < n
  }

  /** No item is less than an earlier one. */
  ghost predicate Sorted(items: seq<Item>, mode: SortMode, s: seq<nat>)
    requires Indices(s, |items|)
  {
    forall i, j | 0 <= i < j < |s| :: !Less(mode, items[s[j]], items[s[i]])
  }

  /** No item below `end` is less than the one `gap` places before it. */
  ghost predicate GapSorted(items: seq<Item>, mode: SortMode, s: seq<nat>, gap: nat, end: nat)
    requires Indices(s, |items|) && end <= |s|
  {
    forall k | gap <= k < end :: !Less(mode, items[s[k]], items[s[k - gap]])
  }

  /**
   * What a sorted list shows: folders before files; among files the larger ones first or the earlier extensions first,
   * as the mode asks; and what that leaves equal, by name.
   */
  lemma SortedMeans(items: seq<Item>, mode: SortMode, s: seq<nat>, i: nat, j: nat)
    requires Indices(s, |items|) && Sorted(items, mode, s) && i < j < |s|
    ensures var a, b := items[s[i]], items[s[j]];
            && (b.kind == Dir ==> a.kind == Dir)
            && (a.kind != Dir && mode == BySize ==> a.size >= b.size)
            && (a.kind != Dir && mode == ByType ==> NameCmp(Extension(a.name), Extension(b.name)) <= 0)
            && (a.kind != Dir && mode == BySize && a.size == b.size ==> NameCmp(a.name, b.name) <= 0)
            && (a.kind != Dir && mode == ByType && NameCmp(Extension(a.name), Extension(b.name)) == 0 ==>
                  NameCmp(a.name, b.name) <= 0)
            && ((a.kind == Dir) == (b.kind == Dir) && (a.kind == Dir || mode == ByName) ==>
                  NameCmp(a.name, b.name) <= 0)
  {
    var a, b := items[s[i]], items[s[j]];
    assert !Less(mode, b, a);
    NameCmpSwap(a.name, b.name);
    NameCmpSwap(Extension(a.name), Extension(b.name));
    hide NameCmp, Extension;
  }

  ghost predicate GoodNames(items: seq<Item>) {
    forall i | 0 <= i < |items| :: NoNul(items[i].name)
  }

  lemma {:induction false} NeighboursSort(items: seq<Item>, mode: SortMode, s: seq<nat>, i: nat, j: nat)
    requires GoodNames(items) && Indices(s, |items|) && GapSorted(items, mode, s, 1, |s|) && i < j < |s|
    ensures !Less(mode, items[s[j]], items[s[i]])
    decreases j
  {
    hide Less;
    assert !Less(mode, items[s[j]], items[s[j - 1]]);
    if i < j - 1 {
      NeighboursSort(items, mode, s, i, j - 1);
      NotLessTransitive(mode, items[s[i]], items[s[j - 1]], items[s[j]]);
    }
  }

  lemma OneGapSorts(items: seq<Item>, mode: SortMode, s: seq<nat>)
    requires GoodNames(items) && Indices(s, |items|) && GapSorted(items, mode, s, 1, |s|)
    ensures Sorted(items, mode, s)
  {
    forall i, j | 0 <= i < j < |s|
      ensures !Less(mode, items[s[j]], items[s[i]])
    {
      NeighboursSort(items, mode, s, i, j);
    }
  }

  function Identity(n: nat): (s: seq<nat>)
    ensures |s| == n && forall k | 0 <= k < n :: s[k] == k
  {
    seq(n, k => k)
  }

  lemma SwapKeeps(s: seq<nat>, i: nat, j: nat)
    requires i < |s| && j < |s|
    ensures multiset(s[i := s[j]][j := s[i]]) == multiset(s)
  {
  }

  lemma SameElements(s: seq<nat>, n: nat)
    requires multiset(s) == multiset(Identity(n))
    ensures |s| == n && Indices(s, n) && forall v: nat | v < n :: v in s
  {
    assert |multiset(s)| == |multiset(Identity(n))|;
    forall k | 0 <= k < |s|
      ensures s[k] < n
    {
      assert s[k] in multiset(s) && s[k] in Identity(n);
    }
    forall v: nat | v < n
      ensures v in s
    {
      assert Identity(n)[v] == v && v in multiset(Identity(n));
    }
  }

  /**
   * What the inner loop keeps while the item `s[j]` sinks towards its place: put it there, and everything below `end`
   * is in order, except perhaps `s[j]` itself.
   */
  ghost predicate Sinking(items: seq<Item>, mode: SortMode, s: seq<nat>, gap: nat, end: nat, j: nat)
    requires Indices(s, |items|) && end < |s|
  {
    && (forall k | gap <= k <= end && k != j :: !Less(mode, items[s[k]], items[s[k - gap]]))
    && (gap <= j && j + gap <= end ==> !Less(mode, items[s[j + gap]], items[s[j - gap]]))
  }

  lemma SinkStep(items: seq<Item>, mode: SortMode, s: seq<nat>, gap: nat, end: nat, j: nat)
    requires Indices(s, |items|) && end < |s| && 1 <= gap <= j <= end && GoodNames(items)
    requires Sinking(items, mode, s, gap, end, j) && Less(mode, items[s[j]], items[s[j - gap]])
    ensures var t := s[j := s[j - gap]][j - gap := s[j]];
            Indices(t, |items|) && Sinking(items, mode, t, gap, end, j - gap) && multiset(t) == multiset(s)
  {
    hide Less;
    var t := s[j := s[j - gap]][j - gap := s[j]];
    SwapKeeps(s, j, j - gap);
    LessAsymmetric(mode, items[s[j]], items[s[j - gap]]);
    forall k | gap <= k <= end && k != j - gap
      ensures !Less(mode, items[t[k]], items[t[k - gap]])
    {
      if k == j {
      } else if k == j + gap {
        assert t[k] == s[j + gap] && t[k - gap] == s[j - gap];
      } else {
        assert t[k] == s[k] && t[k - gap] == s[k - gap];
      }
    }
    if 2 * gap <= j {
      assert !Less(mode, items[s[j - gap]], items[s[j - gap - gap]]);
      assert t[j] == s[j - gap] && t[j - gap - gap] == s[j - gap - gap];
    }
  }

  lemma Sunk(items: seq<Item>, mode: SortMode, s: seq<nat>, gap: nat, end: nat, j: nat)
    requires Indices(s, |items|) && end < |s| && j <= end && Sinking(items, mode, s, gap, end, j)
    requires j < gap || !Less(mode, items[s[j]], items[s[j - gap]])
    ensures GapSorted(items, mode, s, gap, end + 1)
  {
  }

  /** Moving the item before the gap up, in the array and in the sequence it stands for. */
  lemma MoveStep(o: seq<nat>, s: seq<nat>, tmp: nat, j: nat, gap: nat)
    requires 1 <= gap <= j < |o| && s == o[j := tmp] && Indices(o, |o|)
    ensures s[j - gap] == o[j - gap]
    ensures s[j := s[j - gap]][j - gap := s[j]] == o[j := o[j - gap]][j - gap := tmp]
    ensures Indices(o[j := o[j - gap]], |o|)
  {
  }

  lemma SinkStart(items: seq<Item>, mode: SortMode, s: seq<nat>, gap: nat, end: nat)
    requires Indices(s, |items|) && end < |s| && GapSorted(items, mode, s, gap, end) && gap >= 1
    ensures Sinking(items, mode, s, gap, end, end)
  {
  }

  // ---- the list on screen ----

  /** What UiStrCopy leaves in a name field. */
  function Stored(name: string): string {
    if |name| < NAME_STORED then name else name[..NAME_STORED - 1]
  }

  /** The selection is one of the items and is on screen, and the list is not scrolled past its end. */
  predicate InView(selected: int, scroll: int, count: nat, visible: nat) {
    && 0 <= selected < count
    && 0 <= scroll <= (if count > visible then count - visible else 0)
    && scroll <= selected < scroll + visible
  }

  class List {
    const order: array<nat>
    var items: seq<Item>
    var mode: SortMode
    var atRoot: bool
    var selected: int
    var scroll: int
    var visible: nat
    /** What has to be drawn again: the whole list, or two rows. */
    var listDirty: bool
    var rowA: int
    var rowB: int

    ghost predicate Shape()
      reads this`items
    {
      order.Length == MAX_ENTRIES && |items| <= MAX_ENTRIES && GoodNames(items)
    }

    ghost function Ordering(): seq<nat>
      requires Shape()
      reads this`items, order
    {
      order[..|items|]
    }

    /** `order` lists every item once. */
    ghost predicate Listed()
      reads this`items, order
    {
      Shape() && multiset(Ordering()) == multiset(Identity(|items|))
    }

    ghost predicate InOrder()
      requires Listed()
      reads this`items, this`mode, order
    {
      SameElements(Ordering(), |items|);
      Sorted(items, mode, Ordering())
    }

    /** ItemCount: outside the root there is a ".." on top. */
    function Count(): nat
      reads this`items, this`atRoot
    {
      |items| + if atRoot then 0 else 1
    }

    /** The name on row `index`; none for the ".." row and for no row at all. */
    ghost function NameAt(index: int): Option<string>
      requires Listed()
      reads this`items, this`atRoot, order
    {
      SameElements(Ordering(), |items|);
      var shift := if atRoot then 0 else 1;
      if index < shift || index - shift >= |items| then None
      else Some(items[order[index - shift]].name)
    }

    /** The item on row `index`. */
    ghost function ItemAt(index: int): (v: Option<nat>)
      requires Listed()
      reads this`items, this`atRoot, order
      ensures v.None? <==> NameAt(index).None?
      ensures v.Some? ==> v.value < |items| && NameAt(index) == Some(items[v.value].name)
    {
      SameElements(Ordering(), |items|);
      var shift := if atRoot then 0 else 1;
      if index < shift || index - shift >= |items| then None else Some(Ordering()[index - shift])
    }

    constructor (visible: nat)
      ensures Shape() && Listed() && InOrder() && fresh(order) && this.visible == visible
      ensures items == [] && atRoot && selected == 0 && scroll == 0
    {
      order := new nat[MAX_ENTRIES](_ => 0);
      items, mode, atRoot, selected, scroll, this.visible := [], ByName, true, 0, 0, visible;
      listDirty, rowA, rowB := false, -1, -1;
    }

    /** EntryLess. */
    method EntryLess(a: nat, b: nat) returns (less: bool)
      requires Shape() && a < |items| && b < |items|
      ensures less == Less(mode, items[a], items[b])
    {
      var x, y := items[a], items[b];
      if (x.kind == Dir) != (y.kind == Dir) {
        return x.kind == Dir;
      }
      if x.kind != Dir && mode == BySize && x.size != y.size {
        return x.size > y.size;
      }
      if x.kind != Dir && mode == ByType {
        var xe := ExtensionOf(x.name);
        var ye := ExtensionOf(y.name);
        var cmp := CompareNames(xe, ye);
        if cmp != 0 {
          return cmp < 0;
        }
      }
      var cmp := CompareNames(x.name, y.name);
      less := cmp < 0;
    }

    method Sinks(tmp: nat, j: nat, gap: nat) returns (yes: bool)
      requires Shape() && tmp < |items| && j < |items| && Indices(order[..|items|], |items|)
      ensures yes <==> j >= gap && Less(mode, items[tmp], items[order[..|items|][j - gap]])
    {
      hide Less;
      yes := false;
      if j >= gap {
        assert order[..|items|][j - gap] == order[j - gap];
        yes := EntryLess(tmp, order[j - gap]);
      }
    }

    /** `s` is the order with the sinking item `tmp` put back at `j`. */
    ghost predicate Holding(s: seq<nat>, tmp: nat, j: nat, gap: nat, end: nat)
      reads this`items, this`mode, order
    {
      && Shape() && |s| == |items| && j <= end < |s| && gap >= 1 && tmp < |items|
      && s == Ordering()[j := tmp] && Indices(s, |s|) && Indices(Ordering(), |s|)
      && Sinking(items, mode, s, gap, end, j)
    }

    /** One turn of the inner loop: the item `gap` places before moves up. */
    method MoveUp(tmp: nat, j: nat, gap: nat, ghost end: nat, ghost s: seq<nat>) returns (ghost t: seq<nat>)
      requires Holding(s, tmp, j, gap, end) && j >= gap && Less(mode, items[tmp], items[s[j - gap]])
      modifies order
      ensures Holding(t, tmp, j - gap, gap, end) && multiset(t) == multiset(s)
    {
      hide Less, Sinking, GoodNames;
      SinkStep(items, mode, s, gap, end, j);
      ghost var o := Ordering();
      MoveStep(o, s, tmp, j, gap);
      order[j] := order[j - gap];
      assert Ordering() == o[j := o[j - gap]];
      t := s[j := s[j - gap]][j - gap := s[j]];
    }

    /** The inner loop of SortEntries: the item at `i` sinks to its place. */
    method Insert(i: nat, gap: nat)
      requires Shape() && 1 <= gap <= i < |items| && Indices(Ordering(), |items|)
      requires GapSorted(items, mode, Ordering(), gap, i)
      modifies order
      ensures multiset(Ordering()) == multiset(old(Ordering())) && Indices(Ordering(), |items|)
      ensures GapSorted(items, mode, Ordering(), gap, i + 1)
    {
      hide Less, GapSorted, Sinking, GoodNames;
      var tmp := order[i];
      var j: nat := i;
      ghost var s := Ordering();
      SinkStart(items, mode, s, gap, i);
      assert s == s[j := tmp];
      var going := Sinks(tmp, j, gap);
      while going
        invariant Holding(s, tmp, j, gap, i) && multiset(s) == multiset(old(Ordering()))
        invariant going <==> j >= gap && Less(mode, items[tmp], items[s[j - gap]])
        decreases j
      {
        s := MoveUp(tmp, j, gap, i, s);
        j := j - gap;
        going := Sinks(tmp, j, gap);
      }
      order[j] := tmp;
      assert Ordering() == s;
      Sunk(items, mode, s, gap, i, j);
    }

    /** One pass of SortEntries. */
    method Pass(gap: nat)
      requires Shape() && gap >= 1 && Indices(Ordering(), |items|)
      modifies order
      ensures multiset(Ordering()) == multiset(old(Ordering())) && Indices(Ordering(), |items|)
      ensures GapSorted(items, mode, Ordering(), gap, |items|)
    {
      hide Less, GoodNames;
      var i := gap;
      while i < |items|
        invariant gap <= i && Indices(Ordering(), |items|) && multiset(Ordering()) == multiset(old(Ordering()))
        invariant GapSorted(items, mode, Ordering(), gap, Min(i, |items|))
      {
        Insert(i, gap);
        i := i + 1;
      }
    }

    /** SortEntries: the order becomes a permutation of all items with no item less than an earlier one. */
    method SortEntries()
      requires Shape()
      modifies order
      ensures Listed() && InOrder()
    {
      hide Less, GoodNames, GapSorted, Sorted;
      var n, i := |items|, 0;
      while i < n
        invariant 0 <= i <= n && forall k | 0 <= k < i :: order[k] == k
      {
        order[i] := i;
        i := i + 1;
      }
      assert Ordering() == Identity(n);
      var gap, last := n / 2, 0;
      while gap > 0
        invariant Listed() && Indices(Ordering(), n)
        invariant last == 0 ==> gap == n / 2
        invariant last >= 1 ==> gap == last / 2 && GapSorted(items, mode, Ordering(), last, n)
        decreases gap
      {
        Pass(gap);
        SameElements(Ordering(), n);
        gap, last := gap / 2, gap;
      }
      if n > 1 {
        OneGapSorts(items, mode, Ordering());
      } else {
        ShortSorted(items, mode, Ordering());
      }
    }

    // ---- selection ----

    /** ClampScroll. The layout leaves room for at least three rows. */
    method ClampScroll()
      requires visible >= 3
      modifies this`selected, this`scroll
      ensures Count() > 0 ==> InView(selected, scroll, Count(), visible)
      ensures Count() > 0 && 0 <= old(selected) < Count() ==> selected == old(selected)
      ensures Count() == 0 && old(selected) == 0 ==> selected == 0 && scroll == 0
      ensures InView(old(selected), old(scroll), Count(), visible) ==> scroll == old(scroll)
    {
      var count := Count();
      var maxScroll := if count > visible then count - visible else 0;
      if selected < 0 || (count > 0 && selected >= count) {
        selected := if count > 0 then count - 1 else 0;
      }
      if scroll > maxScroll {
        scroll := maxScroll;
      }
      if scroll < 0 {
        scroll := 0;
      }
      if selected < scroll {
        scroll := selected;
      }
      if selected >= scroll + visible {
        scroll := selected - visible + 1;
      }
    }

    /** Select: the nearest row there is; what changed on screen is marked for drawing. */
    method Select(index: int)
      requires visible >= 3 && (Count() > 0 ==> InView(selected, scroll, Count(), visible))
      modifies this`selected, this`scroll, this`listDirty, this`rowA, this`rowB
      ensures Count() == 0 ==> selected == old(selected) && scroll == old(scroll)
      ensures Count() > 0 ==> && InView(selected, scroll, Count(), visible)
                              && selected == if index < 0 then 0 else Min(index, Count() - 1)
      ensures scroll != old(scroll) ==> listDirty
      ensures scroll == old(scroll) && selected != old(selected) ==> rowA == old(selected) && rowB == selected
    {
      var count := Count();
      if count == 0 {
        return;
      }
      var to := if index < 0 then 0 else if index >= count then count - 1 else index;
      if to == selected {
        return;
      }
      var oldScroll, was := scroll, selected;
      selected := to;
      ClampScroll();
      if scroll != oldScroll {
        listDirty := true;
      } else {
        rowA, rowB := was, selected;
      }
    }

    lemma Permuted()
      requires Listed()
      ensures Indices(Ordering(), |items|) && |Ordering()| == |items|
      ensures forall v: nat | v < |items| :: v in Ordering()
    {
      SameElements(Ordering(), |items|);
    }

    /** FindItemByName: the first row with that name. */
    method FindItemByName(name: string) returns (r: int)
      requires Listed()
      ensures -1 <= r < Count() && (r >= 0 ==> NameAt(r) == Some(name))
      ensures forall k | 0 <= k < (if r < 0 then Count() else r) :: NameAt(k) != Some(name)
    {
      Permuted();
      var shift := if atRoot then 0 else 1;
      var i := 0;
      r := -1;
      while i < Count() && r < 0
        invariant 0 <= i <= Count() && -1 <= r < Count() && (r >= 0 ==> NameAt(r) == Some(name))
        invariant forall k | 0 <= k < (if r < 0 then i else r) :: NameAt(k) != Some(name)
        decreases Count() - i, -r
      {
        if i >= shift && i - shift < |items| {
          assert Ordering()[i - shift] == order[i - shift];
          if items[order[i - shift]].name == name {
            r := i;
          }
        }
        i := i + 1;
      }
    }

    /** Every item has a row. */
    lemma RowOf(v: nat)
      requires Listed() && v < |items|
      ensures exists row: nat :: row < Count() && NameAt(row) == Some(items[v].name)
    {
      Permuted();
      assert v in Ordering();
      var k: nat :| k < |items| && Ordering()[k] == v;
      var row := k + if atRoot then 0 else 1;
      assert order[k] == v;
      assert NameAt(row) == Some(items[v].name);
    }

    /** The name to look for after the list has been sorted again: none for the ".." row. */
    method FocusName() returns (focus: string)
      requires Listed()
      ensures focus == if NameAt(selected).Some? then NameAt(selected).value else ""
      ensures focus != "" ==> exists v: nat :: v < |items| && items[v].name == focus
    {
      Permuted();
      focus := "";
      var shift := if atRoot then 0 else 1;
      if shift <= selected && selected - shift < |items| {
        assert Ordering()[selected - shift] == order[selected - shift];
        focus := items[order[selected - shift]].name;
      }
    }

    /**
     * CycleSort. The selected name stays selected if and only if it is not empty, or the list is the root's and an
     * item without a name comes first in the next mode: an empty name is what the search for the old selection takes
     * for "nothing selected". Among items of one name the first of them is selected: the item itself stays selected
     * if it comes before the others in the next mode, and only if none of them comes before it.
     */
    method CycleSort()
      requires Listed() && visible >= 3 && (Count() > 0 ==> InView(selected, scroll, Count(), visible))
      modifies this`mode, this`selected, this`scroll, this`listDirty, order
      ensures Listed() && InOrder() && mode == NextMode(old(mode)) && listDirty
      ensures Count() > 0 ==> InView(selected, scroll, Count(), visible)
      ensures NameAt(selected) == old(NameAt(selected)) <==>
                old(NameAt(selected)) != Some("") || old(EmptyFirst(NextMode(mode)))
      ensures old(NameAt(selected)) == None || old(NameAt(selected)) == Some("") ==> selected == 0 || Count() == 0
      ensures var was := old(ItemAt(selected));
              was.Some? && items[was.value].name != "" ==>
                && (Foremost(mode, was.value) ==> ItemAt(selected) == was)
                && (ItemAt(selected) == was ==> !Preceded(mode, was.value))
    {
      hide Listed, InOrder, NextMode, GoodNames, Foremost, Preceded, ItemAt;
      ghost var was := ItemAt(selected);
      ItemName(selected);
      var focus := FocusName();
      mode := NextMode(mode);
      ListedShape();
      SortEntries();
      EmptyIsFirst();
      Refocus(focus);
      if was.Some? && focus != "" {
        FirstOfName(selected, was.value);
      }
      scroll := 0;
      ClampScroll();
      listDirty := true;
    }

    /** Some item of the root has no name, and no item is less than it. */
    ghost predicate EmptyFirst(mode: SortMode)
      reads this`atRoot, this`items
    {
      atRoot && exists v: nat :: v < |items| && Leading(mode, v) && items[v].name == ""
    }

    ghost predicate Leading(mode: SortMode, v: nat)
      requires v < |items|
      reads this`items
    {
      forall w: nat | w < |items| :: !Less(mode, items[w], items[v])
    }

    /** The item comes before all others of its name; another of its name comes before it. */
    ghost predicate Foremost(mode: SortMode, v: nat)
      requires v < |items|
      reads this`items
    {
      forall w: nat | w < |items| && w != v && items[w].name == items[v].name :: Less(mode, items[v], items[w])
    }

    ghost predicate Preceded(mode: SortMode, v: nat)
      requires v < |items|
      reads this`items
    {
      exists w: nat :: w < |items| && items[w].name == items[v].name && Less(mode, items[w], items[v])
    }

    lemma ItemName(row: int)
      requires Listed()
      ensures ItemAt(row).None? <==> NameAt(row).None?
      ensures ItemAt(row).Some? ==> && ItemAt(row).value < |items|
                                    && NameAt(row) == Some(items[ItemAt(row).value].name)
    {
    }

    /** The first row of a name, in a sorted list. */
    lemma FirstOfName(row: int, v: nat)
      requires Listed() && InOrder() && v < |items| && NameAt(row) == Some(items[v].name)
      requires forall k | 0 <= k < row :: NameAt(k) != NameAt(row)
      ensures Foremost(mode, v) ==> ItemAt(row) == Some(v)
      ensures ItemAt(row) == Some(v) ==> !Preceded(mode, v)
    {
      hide Less;
      Permuted();
      var s, shift := Ordering(), if atRoot then 0 else 1;
      var x := ItemAt(row).value;
      assert s[row - shift] == x;
      forall w: nat | w < |items| && items[w].name == items[v].name
        ensures !Less(mode, items[w], items[x])
      {
        assert w in s;
        var k: nat :| k < |s| && s[k] == w;
        assert order[k] == w && NameAt(k + shift) == Some(items[w].name);
        LessAsymmetric(mode, items[w], items[w]);
      }
    }

    /** Once the items are sorted, that is what it takes for the first row to have no name. */
    lemma EmptyIsFirst()
      requires Listed() && InOrder()
      ensures NameAt(0) == Some("") <==> EmptyFirst(mode)
    {
      hide Less;
      Permuted();
      var s := Ordering();
      if atRoot && |items| > 0 {
        assert s[0] == order[0];
        forall w: nat | w < |items|
          ensures !Less(mode, items[w], items[s[0]])
        {
          assert w in s;
          var k: nat :| k < |s| && s[k] == w;
          LessAsymmetric(mode, items[w], items[w]);
          assert k > 0 ==> !Less(mode, items[s[k]], items[s[0]]);
        }
        assert Leading(mode, s[0]);
        if v: nat :| v < |items| && Leading(mode, v) && items[v].name == "" {
          SameRank(mode, items[v], items[s[0]]);
        }
      }
    }

    lemma ListedShape()
      requires Listed()
      ensures Shape()
    {
    }

    /** The row with that name, or the first row. */
    method Refocus(focus: string)
      requires Listed()
      requires focus != "" ==> exists v: nat :: v < |items| && items[v].name == focus
      modifies this`selected
      ensures selected >= 0 && (Count() > 0 ==> selected < Count())
      ensures if focus == "" then selected == 0 else NameAt(selected) == Some(focus)
      ensures focus != "" ==> forall k | 0 <= k < selected :: NameAt(k) != Some(focus)
    {
      hide Listed;
      selected := 0;
      if focus != "" {
        var found := FindItemByName(focus);
        ghost var v: nat :| v < |items| && items[v].name == focus;
        RowOf(v);
        selected := found;
      }
    }

    /** ListCallback. The result tells FatListDir whether to stop. */
    method ListCallback(e: FatFormat.Entry, showHidden: bool, kindOf: string -> Kind) returns (stop: bool)
      requires Shape() && NoNul(e.name)
      modifies this`items
      ensures Shape()
      ensures stop <==> (ShownAs(e, showHidden, kindOf) != [] && old(|items|) == MAX_ENTRIES)
      ensures items == old(items) + if stop then [] else ShownAs(e, showHidden, kindOf)
    {
      stop := false;
      var hidden := IsHidden(e.attr);
      if hidden && !showHidden {
        return;
      }
      if |items| >= MAX_ENTRIES {
        return true;
      }
      StoredNoNul(e.name);
      items := items + [Item(Stored(e.name), e.size, if e.IsDir() then Dir else kindOf(e.name),
                             |e.name| < NAME_STORED, hidden)];
    }

    /**
     * LoadDir, for the entries `listing` that FatListDir reported before it returned `listed`: the first 1024 that may
     * be shown, in order and with a row selected that is on screen. That is the row named `focus` when there is one;
     * without a focus it is the row below "..", if there is such a row.
     */
    method LoadDir(listing: seq<FatFormat.Entry>, listed: bool, showHidden: bool, kindOf: string -> Kind, focus: string)
      returns (ok: bool, truncated: bool)
      requires Shape() && visible >= 3 && forall i | 0 <= i < |listing| :: NoNul(listing[i].name)
      modifies this`items, this`selected, this`scroll, this`listDirty, order
      ensures Listed() && InOrder()
      ensures var shown := Shown(listing, showHidden, kindOf);
              truncated == (|shown| > MAX_ENTRIES) && items == shown[..Min(|shown|, MAX_ENTRIES)]
      ensures Count() > 0 ==> InView(selected, scroll, Count(), visible)
      ensures focus != "" ==> selected == 0 || NameAt(selected) == Some(focus)
      ensures focus != "" ==> (forall k | 0 <= k < selected :: NameAt(k) != Some(focus))
      ensures focus != "" && (exists v: nat :: v < |items| && items[v].name == focus) ==>
                NameAt(selected) == Some(focus)
      ensures focus == "" ==> selected == if !atRoot && Count() > 1 then 1 else 0
      ensures ok == listed && listDirty
    {
      hide Sorted, Less, Shown, GoodNames;
      ok := listed;
      selected, scroll, listDirty := 0, 0, true;
      truncated := Fill(listing, showHidden, kindOf);
      SortEntries();
      FocusOn(focus);
      ClampScroll();
    }

    /** The run of FatListDir inside LoadDir. */
    method Fill(listing: seq<FatFormat.Entry>, showHidden: bool, kindOf: string -> Kind) returns (truncated: bool)
      requires Shape() && forall i | 0 <= i < |listing| :: NoNul(listing[i].name)
      modifies this`items
      ensures Shape()
      ensures var shown := Shown(listing, showHidden, kindOf);
              truncated == (|shown| > MAX_ENTRIES) && items == shown[..Min(|shown|, MAX_ENTRIES)]
    {
      hide NoNul, Stored, Shown, ShownAs, GoodNames;
      ghost var shown := Shown(listing, showHidden, kindOf);
      items, truncated := [], false;
      var i := 0;
      assert GoodNames([]) by { NoGoodNames(); }
      assert listing[0..] == listing && [] + shown == shown;
      while i < |listing| && !truncated
        invariant 0 <= i <= |listing| && Shape()
        invariant !truncated ==> items + Shown(listing[i..], showHidden, kindOf) == shown
        invariant truncated ==> |shown| > MAX_ENTRIES && items == shown[..MAX_ENTRIES]
        decreases !truncated, |listing| - i
      {
        ShownStep(items, listing, i, showHidden, kindOf);
        truncated := ListCallback(listing[i], showHidden, kindOf);
        i := i + 1;
      }
      ShownEnd(items, listing, showHidden, kindOf);
    }

    /** The row LoadDir selects. */
    method FocusOn(focus: string)
      requires Listed() && selected == 0
      modifies this`selected
      ensures 0 <= selected && (Count() > 0 ==> selected < Count())
      ensures focus != "" ==> selected == 0 || NameAt(selected) == Some(focus)
      ensures focus != "" ==> (forall k | 0 <= k < selected :: NameAt(k) != Some(focus))
      ensures focus != "" && (exists v: nat :: v < |items| && items[v].name == focus) ==>
                NameAt(selected) == Some(focus)
      ensures focus == "" ==> selected == if !atRoot && Count() > 1 then 1 else 0
    {
      if focus != "" {
        var found := FindItemByName(focus);
        if exists v: nat :: v < |items| && items[v].name == focus {
          ghost var v: nat :| v < |items| && items[v].name == focus;
          RowOf(v);
        }
        if found >= 0 {
          selected := found;
        }
      } else if !atRoot && Count() > 1 {
        selected := 1;
      }
    }
  }

  /** In the root, with a folder "d" and a file without a name: the file is selected, and then "d" is. */
  method EmptyNameIsLost() returns (before: string, after: string)
    ensures before == "" && after == "d"
  {
    hide Less, List.InOrder, List.EmptyFirst;
    var list := new List(3);
    list.items := [Item("d", 0, Dir, true, false), Item("", 0, File, true, false)];
    list.SortEntries();
    DirFirst(list);
    list.selected := 1;
    before := list.FocusName();
    list.CycleSort();
    DirFirst(list);
    after := list.FocusName();
  }

  lemma DirFirst(list: List)
    requires list.Listed() && list.InOrder() && list.atRoot
    requires list.items == [Item("d", 0, Dir, true, false), Item("", 0, File, true, false)]
    ensures list.NameAt(0) == Some("d") && list.NameAt(1) == Some("")
  {
    list.Permuted();
    var s := list.Ordering();
    assert Less(list.mode, list.items[0], list.items[1]);
    assert 0 in s && 1 in s && s[0] == list.order[0] && s[1] == list.order[1];
    assert !Less(list.mode, list.items[s[1]], list.items[s[0]]);
  }

  function NextMode(mode: SortMode): SortMode {
    match mode
    case ByName => BySize
    case BySize => ByType
    case ByType => ByName
  }

  predicate IsHidden(attr: byte) {
    attr / 2 % 4 != 0
  }

  lemma StoredNoNul(name: string)
    requires NoNul(name)
    ensures NoNul(Stored(name))
  {
  }

  /** What the list shows of one directory entry: nothing if it is hidden and hidden entries are not wanted. */
  function ShownAs(e: FatFormat.Entry, showHidden: bool, kindOf: string -> Kind): (r: seq<Item>)
    ensures |r| <= 1
  {
    if IsHidden(e.attr) && !showHidden then []
    else [Item(Stored(e.name), e.size, if e.IsDir() then Dir else kindOf(e.name), |e.name| < NAME_STORED,
               IsHidden(e.attr))]
  }

  /**
   * An entry with the hidden or the system attribute is left out unless hidden entries are wanted; any other has its
   * own name (when it fits), size and kind in the list.
   */
  lemma ShownEntry(e: FatFormat.Entry, showHidden: bool, kindOf: string -> Kind)
    ensures var marked := e.attr / 2 % 2 == 1 || e.attr / 4 % 2 == 1;
            && (ShownAs(e, showHidden, kindOf) == [] <==> marked && !showHidden)
            && (ShownAs(e, showHidden, kindOf) != [] && |e.name| <= 119 ==>
                  ShownAs(e, showHidden, kindOf) ==
                    [Item(e.name, e.size, if e.attr / 16 % 2 == 1 then Dir else kindOf(e.name), true, marked)])
  {
    assert e.attr / 2 % 4 == e.attr / 2 % 2 + 2 * (e.attr / 4 % 2);
  }

  lemma NoGoodNames()
    ensures GoodNames([])
  {
  }

  lemma ShownStep(items: seq<Item>, listing: seq<FatFormat.Entry>, i: nat, showHidden: bool, kindOf: string -> Kind)
    requires i < |listing|
    ensures var here, rest := ShownAs(listing[i], showHidden, kindOf), Shown(listing[i + 1..], showHidden, kindOf);
            && items + Shown(listing[i..], showHidden, kindOf) == items + here + rest
            && |here| <= 1 && (items + here + rest)[..|items|] == items
  {
    assert listing[i..][1..] == listing[i + 1..];
  }

  lemma ShownEnd(items: seq<Item>, listing: seq<FatFormat.Entry>, showHidden: bool, kindOf: string -> Kind)
    ensures items + Shown(listing[|listing|..], showHidden, kindOf) == items
    ensures items[..|items|] == items
  {
  }

  function Shown(listing: seq<FatFormat.Entry>, showHidden: bool, kindOf: string -> Kind): seq<Item> {
    if listing == [] then []
    else ShownAs(listing[0], showHidden, kindOf) + Shown(listing[1..], showHidden, kindOf)
  }

  lemma ShortSorted(items: seq<Item>, mode: SortMode, s: seq<nat>)
    requires |s| <= 1 && Indices(s, |items|)
    ensures Sorted(items, mode, s)
  {
  }
}
