/**
 * The manifest's document tree, as the DOM the manifest code works on: elements with a tag,
 * an attribute map and ordered children, and text nodes. Locations in the tree are paths of
 * child indices; `UpdateAt` replaces the node at a path, which is how in-place DOM edits are
 * modelled. Also here: document-order queries (`getElementsByTagName`) and the tree-wide
 * pruning of all but the first element with a given tag.
 */
module Dom {
  import opened Wrappers

  datatype Node =
    | Element(tag: string, attrs: map<string, string>, children: seq<Node>)
    | Text(text: string)

  predicate IsElement(n: Node, tag: string) {
    n.Element? && n.tag == tag
  }

  predicate HasAttr(n: Node, name: string) {
    n.Element? && name in n.attrs
  }

  /** `getAttribute`: the attribute's value, or the empty string when it is absent. */
  function Attr(n: Node, name: string): string {
    if n.Element? && name in n.attrs then n.attrs[name] else ""
  }

  lemma Snoc(cs: seq<Node>, x: Node)
    ensures (cs + [x])[..|cs|] == cs && (cs + [x])[|cs|] == x
  {
  }

  /** A sequence extended by a non-empty one is extended by all but its last, then by its last. */
  lemma SnocLast<T>(a: seq<T>, xs: seq<T>)
    requires xs != []
    ensures (a + xs[..|xs| - 1]) + [xs[|xs| - 1]] == a + xs
  {
    assert xs[..|xs| - 1] + [xs[|xs| - 1]] == xs;
  }

  // ---------------------------------------------------------------- paths

  predicate ValidPath(n: Node, p: seq<nat>)
    decreases p
  {
    p == [] || (n.Element? && p[0] < |n.children| && ValidPath(n.children[p[0]], p[1..]))
  }

  function At(n: Node, p: seq<nat>): Node
    requires ValidPath(n, p)
    decreases p
  {
    if p == [] then n else At(n.children[p[0]], p[1..])
  }

  /** The tree with the node at `p` replaced by `x`. */
  function UpdateAt(n: Node, p: seq<nat>, x: Node): Node
    requires ValidPath(n, p)
    decreases p
  {
    if p == [] then x
    else n.(children := n.children[p[0] := UpdateAt(n.children[p[0]], p[1..], x)])
  }

  predicate IsPrefix(p: seq<nat>, q: seq<nat>) {
    |p| <= |q| && q[..|p|] == p
  }

  /** After `UpdateAt`, the path still leads somewhere, and to the new node. */
  lemma {:induction false} UpdateAtTarget(n: Node, p: seq<nat>, x: Node)
    requires ValidPath(n, p)
    ensures ValidPath(UpdateAt(n, p, x), p) && At(UpdateAt(n, p, x), p) == x
    decreases p
  {
    if p != [] {
      UpdateAtTarget(n.children[p[0]], p[1..], x);
    }
  }

  /** `UpdateAt` leaves every node off the updated path where it was. */
  lemma {:induction false} UpdateAtElsewhere(n: Node, p: seq<nat>, q: seq<nat>, x: Node)
    requires ValidPath(n, p) && ValidPath(n, q)
    requires !IsPrefix(p, q) && !IsPrefix(q, p)
    ensures ValidPath(UpdateAt(n, p, x), q) && At(UpdateAt(n, p, x), q) == At(n, q)
    decreases p
  {
    assert p != [] && q != [];
    var u := UpdateAt(n, p, x);
    if p[0] != q[0] {
      assert u.children[q[0]] == n.children[q[0]];
    } else {
      UpdateAtElsewhere(n.children[p[0]], p[1..], q[1..], x);
    }
  }

  /** The nodes above the updated one keep their tag and attributes. */
  lemma {:induction false} UpdateAtAbove(n: Node, p: seq<nat>, q: seq<nat>, x: Node)
    requires ValidPath(n, p) && IsPrefix(q, p) && |q| < |p|
    ensures ValidPath(n, q) && ValidPath(UpdateAt(n, p, x), q)
    ensures At(UpdateAt(n, p, x), q).Element? && At(n, q).Element?
    ensures At(UpdateAt(n, p, x), q).tag == At(n, q).tag
    ensures At(UpdateAt(n, p, x), q).attrs == At(n, q).attrs
    decreases p
  {
    if q != [] {
      assert q[0] == p[0];
      assert IsPrefix(q[1..], p[1..]) by {
        assert p[1..][..|q| - 1] == p[..|q|][1..];
      }
      UpdateAtAbove(n.children[p[0]], p[1..], q[1..], x);
    }
  }

  /** A path extended by one more child index. */
  lemma PathExtend(n: Node, p: seq<nat>, i: nat)
    requires ValidPath(n, p) && At(n, p).Element? && i < |At(n, p).children|
    ensures ValidPath(n, p + [i]) && At(n, p + [i]) == At(n, p).children[i]
    decreases p
  {
    if p != [] {
      assert (p + [i])[1..] == p[1..] + [i];
      PathExtend(n.children[p[0]], p[1..], i);
    }
  }

  /** A valid path one index longer than `p`, and starting with `p`, goes through `p` to one of its children. */
  lemma {:induction false} PathSplit(n: Node, p: seq<nat>, q: seq<nat>)
    requires |q| == |p| + 1 && q[..|p|] == p && ValidPath(n, q)
    ensures ValidPath(n, p) && At(n, p).Element? && q[|p|] < |At(n, p).children|
    ensures At(n, q) == At(n, p).children[q[|p|]]
    decreases p
  {
    if p != [] {
      assert q[0] == p[0];
      assert q[1..][..|p| - 1] == p[1..];
      PathSplit(n.children[p[0]], p[1..], q[1..]);
    }
  }

  /** The converse: from `p` to one of its children is a valid path one index longer. */
  lemma {:induction false} PathJoin(n: Node, p: seq<nat>, q: seq<nat>)
    requires ValidPath(n, p) && At(n, p).Element?
    requires |q| == |p| + 1 && q[..|p|] == p && q[|p|] < |At(n, p).children|
    ensures ValidPath(n, q) && At(n, q) == At(n, p).children[q[|p|]]
    decreases p
  {
    if p != [] {
      assert q[0] == p[0];
      assert q[1..][..|p| - 1] == p[1..];
      PathJoin(n.children[p[0]], p[1..], q[1..]);
    }
  }

  // ---------------------------------------------------------------- children by tag

  /** The element children with the given tag, in document order. */
  function Tagged(cs: seq<Node>, tag: string): (r: seq<Node>)
    ensures |r| <= |cs|
    ensures forall j | 0 <= j < |r| :: IsElement(r[j], tag)
  {
    if cs == [] then []
    else Tagged(cs[..|cs| - 1], tag) + (if IsElement(cs[|cs| - 1], tag) then [cs[|cs| - 1]] else [])
  }

  /** The `item` children of every `group` child, in document order. */
  function ItemsUnder(cs: seq<Node>, group: string, item: string): seq<Node> {
    if cs == [] then []
    else
      var last := cs[|cs| - 1];
      ItemsUnder(cs[..|cs| - 1], group, item) + (if IsElement(last, group) then Tagged(last.children, item) else [])
  }

  lemma TaggedSnoc(cs: seq<Node>, x: Node, tag: string)
    ensures Tagged(cs + [x], tag) == Tagged(cs, tag) + (if IsElement(x, tag) then [x] else [])
  {
    Snoc(cs, x);
  }

  lemma ItemsUnderSnoc(cs: seq<Node>, x: Node, group: string, item: string)
    ensures ItemsUnder(cs + [x], group, item) ==
            ItemsUnder(cs, group, item) + (if IsElement(x, group) then Tagged(x.children, item) else [])
  {
    Snoc(cs, x);
  }

  /** Index of the last child with the given tag, or -1. */
  function LastIndex(cs: seq<Node>, tag: string): (r: int)
    ensures -1 <= r < |cs|
    ensures r >= 0 ==> IsElement(cs[r], tag)
    ensures forall j | r < j < |cs| :: !IsElement(cs[j], tag)
  {
    if cs == [] then -1
    else if IsElement(cs[|cs| - 1], tag) then |cs| - 1
    else LastIndex(cs[..|cs| - 1], tag)
  }

  /** Appending an item to the last group child appends it to the items of all groups. */
  lemma {:induction false} ItemsUnderGrowLast(cs: seq<Node>, group: string, item: string, y: Node)
    requires LastIndex(cs, group) >= 0
    ensures var i := LastIndex(cs, group);
            var g := cs[i];
            ItemsUnder(cs[i := g.(children := g.children + [y])], group, item) ==
              ItemsUnder(cs, group, item) + (if IsElement(y, item) then [y] else [])
  {
    var i := LastIndex(cs, group);
    var n := |cs| - 1;
    if i == n {
      GrowLastHere(cs, group, item, y);
    } else {
      var g := cs[i];
      var cs' := cs[i := g.(children := g.children + [y])];
      assert LastIndex(cs[..n], group) == i;
      assert cs'[..n] == cs[..n][i := g.(children := g.children + [y])];
      ItemsUnderGrowLast(cs[..n], group, item, y);
      assert ItemsUnder(cs', group, item) == ItemsUnder(cs'[..n], group, item) + [];
      assert ItemsUnder(cs, group, item) == ItemsUnder(cs[..n], group, item) + [];
    }
  }

  /** The same, when the last group child is the last child. */
  lemma GrowLastHere(cs: seq<Node>, group: string, item: string, y: Node)
    requires cs != [] && IsElement(cs[|cs| - 1], group)
    ensures var n := |cs| - 1;
            var g := cs[n];
            ItemsUnder(cs[n := g.(children := g.children + [y])], group, item) ==
              ItemsUnder(cs, group, item) + (if IsElement(y, item) then [y] else [])
  {
    var n := |cs| - 1;
    var g := cs[n];
    var g' := g.(children := g.children + [y]);
    var cs' := cs[n := g'];
    var extra := if IsElement(y, item) then [y] else [];
    var before := ItemsUnder(cs[..n], group, item);
    var tg := Tagged(g.children, item);
    TaggedSnoc(g.children, y, item);
    assert cs'[..n] == cs[..n];
    assert ItemsUnder(cs', group, item) == before + (tg + extra);
    assert ItemsUnder(cs, group, item) == before + tg;
    assert before + (tg + extra) == (before + tg) + extra;
  }

  lemma {:induction false} TaggedReplaceOther(cs: seq<Node>, i: nat, y: Node, tag: string)
    requires i < |cs| && !IsElement(cs[i], tag) && !IsElement(y, tag)
    ensures Tagged(cs[i := y], tag) == Tagged(cs, tag)
    decreases |cs|
  {
    var n := |cs| - 1;
    if i == n {
      assert cs[i := y][..n] == cs[..n];
    } else {
      assert cs[i := y][..n] == cs[..n][i := y];
      TaggedReplaceOther(cs[..n], i, y, tag);
    }
  }

  lemma {:induction false} ItemsUnderReplaceOther(cs: seq<Node>, i: nat, y: Node, group: string, item: string)
    requires i < |cs| && !IsElement(cs[i], group) && !IsElement(y, group)
    ensures ItemsUnder(cs[i := y], group, item) == ItemsUnder(cs, group, item)
    decreases |cs|
  {
    var n := |cs| - 1;
    if i == n {
      assert cs[i := y][..n] == cs[..n];
    } else {
      assert cs[i := y][..n] == cs[..n][i := y];
      ItemsUnderReplaceOther(cs[..n], i, y, group, item);
    }
  }

  /**
   * Appending `x` to the last `group` child, creating an empty group at the end first when
   * there is none: how items, files and components are added to a build.
   */
  function AppendToGroup(cs: seq<Node>, group: string, x: Node): (r: seq<Node>)
    ensures LastIndex(r, group) >= 0
  {
    var k := LastIndex(cs, group);
    if k < 0 then
      var r := cs + [Element(group, map[], [x])];
      assert IsElement(r[|cs|], group);
      r
    else
      var g := cs[k];
      var r := cs[k := g.(children := g.children + [x])];
      assert IsElement(r[k], group);
      r
  }

  /** The items of the group grow by exactly `x`, when `x` is an item. */
  lemma AppendToGroupItems(cs: seq<Node>, group: string, item: string, x: Node)
    ensures ItemsUnder(AppendToGroup(cs, group, x), group, item) ==
            ItemsUnder(cs, group, item) + (if IsElement(x, item) then [x] else [])
  {
    var k := LastIndex(cs, group);
    if k < 0 {
      ItemsUnderSnoc(cs, Element(group, map[], [x]), group, item);
      TaggedSnoc([], x, item);
      assert [] + [x] == [x];
    } else {
      ItemsUnderGrowLast(cs, group, item, x);
    }
  }

  /** Other groups and other tags are not affected. */
  lemma AppendToGroupOther(cs: seq<Node>, group: string, x: Node, other: string, item: string)
    requires other != group
    ensures ItemsUnder(AppendToGroup(cs, group, x), other, item) == ItemsUnder(cs, other, item)
    ensures Tagged(AppendToGroup(cs, group, x), other) == Tagged(cs, other)
  {
    var k := LastIndex(cs, group);
    if k < 0 {
      ItemsUnderSnoc(cs, Element(group, map[], [x]), other, item);
      TaggedSnoc(cs, Element(group, map[], [x]), other);
    } else {
      var g := cs[k];
      ItemsUnderReplaceOther(cs, k, g.(children := g.children + [x]), other, item);
      TaggedReplaceOther(cs, k, g.(children := g.children + [x]), other);
    }
  }
  /**
   * Appending every node of `xs` in turn; the group is made first when there is none, so an
   * empty `xs` still leaves an empty group behind.
   */
  function AppendAllToGroup(cs: seq<Node>, group: string, xs: seq<Node>): (r: seq<Node>)
    ensures LastIndex(r, group) >= 0
  {
    if xs == [] then
      if LastIndex(cs, group) < 0 then
        var r := cs + [Element(group, map[], [])];
        assert IsElement(r[|cs|], group);
        r
      else cs
    else AppendToGroup(AppendAllToGroup(cs, group, xs[..|xs| - 1]), group, xs[|xs| - 1])
  }

  lemma AppendAllSnoc(cs: seq<Node>, group: string, xs: seq<Node>, x: Node)
    ensures AppendAllToGroup(cs, group, xs + [x]) == AppendToGroup(AppendAllToGroup(cs, group, xs), group, x)
  {
    assert (xs + [x])[..|xs|] == xs;
  }


  // ---------------------------------------------------------------- document order

  /** How many elements with the tag are in the subtree (the node included). */
  function Occ(n: Node, tag: string): nat {
    match n
    case Text(_) => 0
    case Element(t, _, cs) => (if t == tag then 1 else 0) + OccSeq(cs, tag)
  }

  function OccSeq(cs: seq<Node>, tag: string): nat {
    if cs == [] then 0 else OccSeq(cs[..|cs| - 1], tag) + Occ(cs[|cs| - 1], tag)
  }

  /** Path from `n` to the first element with the tag in document order (pre-order). */
  function FirstPath(n: Node, tag: string): (p: seq<nat>)
    requires Occ(n, tag) > 0
    ensures ValidPath(n, p) && IsElement(At(n, p), tag)
  {
    if IsElement(n, tag) then []
    else
      var q := FirstPathSeq(n.children, tag);
      assert [q[0]] + q[1..] == q;
      q
  }

  /** The same, over a sequence of siblings; the first index selects the sibling. */
  function FirstPathSeq(cs: seq<Node>, tag: string): (p: seq<nat>)
    requires OccSeq(cs, tag) > 0
    ensures |p| > 0 && p[0] < |cs| && ValidPath(cs[p[0]], p[1..]) && IsElement(At(cs[p[0]], p[1..]), tag)
  {
    var n := |cs| - 1;
    if OccSeq(cs[..n], tag) > 0 then
      var q := FirstPathSeq(cs[..n], tag);
      assert cs[..n][q[0]] == cs[q[0]];
      q
    else [n] + FirstPath(cs[n], tag)
  }

  /** The element with the tag that `getElementsByTagName` lists at position `k` is removed, subtree and all. */
  function RemoveOccSeq(cs: seq<Node>, tag: string, k: nat): seq<Node>
    decreases cs, 2
  {
    if cs == [] then []
    else
      var n := |cs| - 1;
      var before := OccSeq(cs[..n], tag);
      if k < before then RemoveOccSeq(cs[..n], tag, k) + [cs[n]]
      else cs[..n] + RemoveOcc(cs[n], tag, k - before)
  }

  /** Removing occurrence `k` of a subtree: the node itself when it is occurrence 0. */
  function RemoveOcc(n: Node, tag: string, k: nat): seq<Node>
    decreases n, 1
  {
    if IsElement(n, tag) && k == 0 then [] else [RemoveBelow(n, tag, k)]
  }

  /** Removing occurrence `k` of a subtree whose root is not that occurrence. */
  function RemoveBelow(n: Node, tag: string, k: nat): Node
    requires !(IsElement(n, tag) && k == 0)
    decreases n, 0
  {
    match n
    case Text(_) => n
    case Element(t, a, cs) => Element(t, a, RemoveOccSeq(cs, tag, if t == tag then k - 1 else k))
  }

  /** Every element with the tag removed, with its subtree. */
  function DropSeq(cs: seq<Node>, tag: string): seq<Node> {
    if cs == [] then [] else DropSeq(cs[..|cs| - 1], tag) + Drop(cs[|cs| - 1], tag)
  }

  function Drop(n: Node, tag: string): seq<Node> {
    match n
    case Text(_) => [n]
    case Element(t, a, cs) => if t == tag then [] else [Element(t, a, DropSeq(cs, tag))]
  }

  /**
   * The intended outcome of pruning: the first element with the tag in document order stays
   * where it is, and every other one (including those inside the first) is gone.
   */
  function KeepFirst(n: Node, tag: string): Node {
    match n
    case Text(_) => n
    case Element(t, a, cs) => Element(t, a, if t == tag then DropSeq(cs, tag) else KeepFirstSeq(cs, tag))
  }

  function KeepFirstSeq(cs: seq<Node>, tag: string): seq<Node> {
    if cs == [] then []
    else
      var n := |cs| - 1;
      if OccSeq(cs[..n], tag) > 0 then KeepFirstSeq(cs[..n], tag) + Drop(cs[n], tag)
      else cs[..n] + [KeepFirst(cs[n], tag)]
  }

  // ---------------------------------------------------------------- facts about pruning

  lemma {:induction false} OccSeqAppend(a: seq<Node>, b: seq<Node>, tag: string)
    ensures OccSeq(a + b, tag) == OccSeq(a, tag) + OccSeq(b, tag)
    decreases |b|
  {
    if b == [] {
      assert a + b == a;
    } else {
      var n := |b| - 1;
      assert (a + b)[..|a + b| - 1] == a + b[..n];
      assert (a + b)[|a + b| - 1] == b[n];
      OccSeqAppend(a, b[..n], tag);
    }
  }

  lemma {:induction false} DropSeqAppend(a: seq<Node>, b: seq<Node>, tag: string)
    ensures DropSeq(a + b, tag) == DropSeq(a, tag) + DropSeq(b, tag)
    decreases |b|
  {
    if b == [] {
      assert a + b == a;
    } else {
      var n := |b| - 1;
      assert (a + b)[..|a + b| - 1] == a + b[..n];
      assert (a + b)[|a + b| - 1] == b[n];
      DropSeqAppend(a, b[..n], tag);
    }
  }

  /** Dropping leaves no element with the tag. */
  lemma {:induction false} DropCount(cs: seq<Node>, tag: string)
    ensures OccSeq(DropSeq(cs, tag), tag) == 0
    decreases cs
  {
    if cs != [] {
      var n := |cs| - 1;
      DropCount(cs[..n], tag);
      DropNodeCount(cs[n], tag);
      OccSeqAppend(DropSeq(cs[..n], tag), Drop(cs[n], tag), tag);
    }
  }

  lemma {:induction false} DropNodeCount(x: Node, tag: string)
    ensures OccSeq(Drop(x, tag), tag) == 0
    decreases x
  {
    if x.Element? && x.tag != tag {
      DropCount(x.children, tag);
      Snoc([], Drop(x, tag)[0]);
    }
  }

  /** Dropping a tree with no element with the tag changes nothing. */
  lemma {:induction false} DropNone(cs: seq<Node>, tag: string)
    requires OccSeq(cs, tag) == 0
    ensures DropSeq(cs, tag) == cs
    decreases cs
  {
    if cs != [] {
      var n := |cs| - 1;
      DropNone(cs[..n], tag);
      DropNodeNone(cs[n], tag);
      assert cs == cs[..n] + [cs[n]];
    }
  }

  lemma {:induction false} DropNodeNone(x: Node, tag: string)
    requires Occ(x, tag) == 0
    ensures Drop(x, tag) == [x]
    decreases x
  {
    if x.Element? {
      DropNone(x.children, tag);
    }
  }

  /** Removing one element with the tag, then stripping, is the same as stripping. */
  lemma {:induction false} DropAfterRemove(cs: seq<Node>, tag: string, k: nat)
    ensures DropSeq(RemoveOccSeq(cs, tag, k), tag) == DropSeq(cs, tag)
    decreases cs
  {
    if cs != [] {
      var n := |cs| - 1;
      var before := OccSeq(cs[..n], tag);
      if k < before {
        DropAfterRemove(cs[..n], tag, k);
        DropSeqAppend(RemoveOccSeq(cs[..n], tag, k), [cs[n]], tag);
        assert DropSeq([cs[n]], tag) == Drop(cs[n], tag) by { assert [cs[n]][..0] == []; }
      } else {
        DropAfterRemoveNode(cs[n], tag, k - before);
        DropSeqAppend(cs[..n], RemoveOcc(cs[n], tag, k - before), tag);
      }
    }
  }

  lemma {:induction false} DropAfterRemoveNode(x: Node, tag: string, k: nat)
    ensures DropSeq(RemoveOcc(x, tag, k), tag) == Drop(x, tag)
    decreases x
  {
    if !(IsElement(x, tag) && k == 0) {
      var y := RemoveBelow(x, tag, k);
      assert DropSeq([y], tag) == Drop(y, tag) by { assert [y][..0] == []; }
      if x.Element? && x.tag != tag {
        DropAfterRemove(x.children, tag, k);
      }
    }
  }

  /** Each removal lowers the count, and removing a later occurrence keeps the first. */
  lemma {:induction false} RemoveLowersCount(cs: seq<Node>, tag: string, k: nat)
    requires k < OccSeq(cs, tag)
    ensures OccSeq(RemoveOccSeq(cs, tag, k), tag) < OccSeq(cs, tag)
    ensures k >= 1 ==> OccSeq(RemoveOccSeq(cs, tag, k), tag) >= 1
    decreases cs
  {
    var n := |cs| - 1;
    var before := OccSeq(cs[..n], tag);
    if k < before {
      RemoveLowersCount(cs[..n], tag, k);
      OccSeqAppend(RemoveOccSeq(cs[..n], tag, k), [cs[n]], tag);
      assert OccSeq([cs[n]], tag) == Occ(cs[n], tag) by { assert [cs[n]][..0] == []; }
    } else {
      RemoveLowersCountNode(cs[n], tag, k - before);
      OccSeqAppend(cs[..n], RemoveOcc(cs[n], tag, k - before), tag);
    }
  }

  lemma {:induction false} RemoveLowersCountNode(x: Node, tag: string, k: nat)
    requires k < Occ(x, tag)
    ensures OccSeq(RemoveOcc(x, tag, k), tag) < Occ(x, tag)
    ensures k >= 1 ==> OccSeq(RemoveOcc(x, tag, k), tag) >= 1
    decreases x
  {
    if !(IsElement(x, tag) && k == 0) {
      var y := RemoveBelow(x, tag, k);
      assert OccSeq([y], tag) == Occ(y, tag) by { assert [y][..0] == []; }
      RemoveLowersCount(x.children, tag, if x.tag == tag then k - 1 else k);
    }
  }

  /** A tree with at most one element with the tag is already pruned. */
  lemma {:induction false} KeepFirstFixed(x: Node, tag: string)
    requires Occ(x, tag) <= 1
    ensures KeepFirst(x, tag) == x
    decreases x
  {
    if x.Element? {
      if x.tag == tag {
        DropNone(x.children, tag);
      } else {
        KeepFirstSeqFixed(x.children, tag);
      }
    }
  }

  lemma {:induction false} KeepFirstSeqFixed(cs: seq<Node>, tag: string)
    requires OccSeq(cs, tag) <= 1
    ensures KeepFirstSeq(cs, tag) == cs
    decreases cs
  {
    if cs != [] {
      var n := |cs| - 1;
      assert cs == cs[..n] + [cs[n]];
      if OccSeq(cs[..n], tag) > 0 {
        KeepFirstSeqFixed(cs[..n], tag);
        DropNodeNone(cs[n], tag);
      } else {
        KeepFirstFixed(cs[n], tag);
      }
    }
  }

  /** Removing any occurrence but the first does not change the pruned result. */
  lemma {:induction false} KeepFirstAfterRemove(cs: seq<Node>, tag: string, k: nat)
    requires 1 <= k < OccSeq(cs, tag)
    ensures KeepFirstSeq(RemoveOccSeq(cs, tag, k), tag) == KeepFirstSeq(cs, tag)
    decreases cs, 1
  {
    var n := |cs| - 1;
    var before := OccSeq(cs[..n], tag);
    if k < before {
      RemoveInPrefix(cs, tag, k);
    } else if before > 0 {
      RemoveInLastAfterFirst(cs, tag, k);
    } else {
      RemoveInLastFirst(cs, tag, k);
    }
  }

  lemma RemoveInLastFirst(cs: seq<Node>, tag: string, k: nat)
    requires cs != [] && OccSeq(cs[..|cs| - 1], tag) == 0 && 1 <= k < OccSeq(cs, tag)
    ensures KeepFirstSeq(RemoveOccSeq(cs, tag, k), tag) == KeepFirstSeq(cs, tag)
    decreases cs, 0
  {
    var n := |cs| - 1;
    var y := RemoveBelow(cs[n], tag, k);
    assert RemoveOccSeq(cs, tag, k) == cs[..n] + [y];
    Snoc(cs[..n], y);
    assert KeepFirstSeq(cs[..n] + [y], tag) == cs[..n] + [KeepFirst(y, tag)];
    assert KeepFirstSeq(cs, tag) == cs[..n] + [KeepFirst(cs[n], tag)];
    KeepFirstAfterRemoveNode(cs[n], tag, k);
  }

  lemma {:induction false} RemoveInPrefix(cs: seq<Node>, tag: string, k: nat)
    requires cs != [] && 1 <= k < OccSeq(cs[..|cs| - 1], tag)
    ensures KeepFirstSeq(RemoveOccSeq(cs, tag, k), tag) == KeepFirstSeq(cs, tag)
    decreases cs, 0
  {
    var n := |cs| - 1;
    var r := RemoveOccSeq(cs[..n], tag, k);
    assert RemoveOccSeq(cs, tag, k) == r + [cs[n]];
    RemoveLowersCount(cs[..n], tag, k);
    KeepFirstAfterRemove(cs[..n], tag, k);
    Snoc(r, cs[n]);
  }

  lemma RemoveInLastAfterFirst(cs: seq<Node>, tag: string, k: nat)
    requires cs != [] && 0 < OccSeq(cs[..|cs| - 1], tag) <= k
    ensures KeepFirstSeq(RemoveOccSeq(cs, tag, k), tag) == KeepFirstSeq(cs, tag)
  {
    var n := |cs| - 1;
    var before := OccSeq(cs[..n], tag);
    var tail := RemoveOcc(cs[n], tag, k - before);
    assert RemoveOccSeq(cs, tag, k) == cs[..n] + tail;
    assert KeepFirstSeq(cs, tag) == KeepFirstSeq(cs[..n], tag) + Drop(cs[n], tag);
    DropAfterRemoveNode(cs[n], tag, k - before);
    if tail == [] {
      assert DropSeq(tail, tag) == [];
      assert cs[..n] + tail == cs[..n];
    } else {
      KeepFirstSnocAfter(cs[..n], tail[0], tag);
      assert tail == [tail[0]];
      assert DropSeq([tail[0]], tag) == Drop(tail[0], tag) by { assert [tail[0]][..0] == []; }
    }
  }

  /** Once the first element with the tag is among `cs`, a further sibling is pruned entirely. */
  lemma KeepFirstSnocAfter(cs: seq<Node>, x: Node, tag: string)
    requires 0 < OccSeq(cs, tag)
    ensures KeepFirstSeq(cs + [x], tag) == KeepFirstSeq(cs, tag) + Drop(x, tag)
  {
    Snoc(cs, x);
  }

  lemma {:induction false} KeepFirstAfterRemoveNode(x: Node, tag: string, k: nat)
    requires 1 <= k < Occ(x, tag)
    ensures KeepFirst(RemoveBelow(x, tag, k), tag) == KeepFirst(x, tag)
    decreases x, 2
  {
    if x.tag == tag {
      DropAfterRemove(x.children, tag, k - 1);
    } else {
      KeepFirstAfterRemove(x.children, tag, k);
    }
  }

  /** After pruning exactly one element with the tag is left, if there was any. */
  lemma {:induction false} KeepFirstCount(x: Node, tag: string)
    ensures Occ(KeepFirst(x, tag), tag) == if Occ(x, tag) > 0 then 1 else 0
    decreases x
  {
    if x.Element? {
      if x.tag == tag {
        DropCount(x.children, tag);
      } else {
        KeepFirstSeqCount(x.children, tag);
      }
    }
  }

  lemma {:induction false} KeepFirstSeqCount(cs: seq<Node>, tag: string)
    ensures OccSeq(KeepFirstSeq(cs, tag), tag) == if OccSeq(cs, tag) > 0 then 1 else 0
    decreases cs
  {
    if cs != [] {
      var n := |cs| - 1;
      if OccSeq(cs[..n], tag) > 0 {
        KeepFirstSeqCount(cs[..n], tag);
        DropNodeCount(cs[n], tag);
        OccSeqAppend(KeepFirstSeq(cs[..n], tag), Drop(cs[n], tag), tag);
      } else {
        KeepFirstCount(cs[n], tag);
        Snoc(cs[..n], KeepFirst(cs[n], tag));
      }
    }
  }

  /** The element that survives pruning is the first one in document order, at the same place. */
  lemma {:induction false} KeepFirstPath(x: Node, tag: string)
    requires Occ(x, tag) > 0
    ensures Occ(KeepFirst(x, tag), tag) > 0
    ensures FirstPath(KeepFirst(x, tag), tag) == FirstPath(x, tag)
    decreases x
  {
    KeepFirstCount(x, tag);
    if !IsElement(x, tag) {
      KeepFirstSeqPath(x.children, tag);
    }
  }

  lemma {:induction false} KeepFirstSeqPath(cs: seq<Node>, tag: string)
    requires OccSeq(cs, tag) > 0
    ensures OccSeq(KeepFirstSeq(cs, tag), tag) > 0
    ensures FirstPathSeq(KeepFirstSeq(cs, tag), tag) == FirstPathSeq(cs, tag)
    decreases cs
  {
    KeepFirstSeqCount(cs, tag);
    var n := |cs| - 1;
    if OccSeq(cs[..n], tag) > 0 {
      var kp := KeepFirstSeq(cs[..n], tag);
      KeepFirstSeqPath(cs[..n], tag);
      var st := Drop(cs[n], tag);
      if st == [] {
        assert kp + st == kp;
      } else {
        assert st == [st[0]];
        Snoc(kp, st[0]);
      }
    } else {
      Snoc(cs[..n], KeepFirst(cs[n], tag));
      KeepFirstPath(cs[n], tag);
    }
  }

  /** Pruning twice is pruning once. */
  lemma KeepFirstIdempotent(x: Node, tag: string)
    ensures KeepFirst(KeepFirst(x, tag), tag) == KeepFirst(x, tag)
  {
    KeepFirstCount(x, tag);
    KeepFirstFixed(KeepFirst(x, tag), tag);
  }

  /** A sibling's elements with the tag are among those of the whole run. */
  lemma {:induction false} OccSeqMember(cs: seq<Node>, i: nat, tag: string)
    requires i < |cs|
    ensures Occ(cs[i], tag) <= OccSeq(cs, tag)
    decreases |cs|
  {
    var n := |cs| - 1;
    if i < n {
      OccSeqMember(cs[..n], i, tag);
      assert cs[..n][i] == cs[i];
    }
  }

  /** A subtree holds no more elements with the tag than the tree around it. */
  lemma {:induction false} OccAtMost(n: Node, p: seq<nat>, tag: string)
    requires ValidPath(n, p)
    ensures Occ(At(n, p), tag) <= Occ(n, tag)
    decreases p
  {
    if p != [] {
      OccAtMost(n.children[p[0]], p[1..], tag);
      OccSeqMember(n.children, p[0], tag);
    }
  }

  /** When sibling `i` holds every element with the tag, pruning the run prunes that sibling and nothing else. */
  lemma {:induction false} KeepFirstSeqAt(cs: seq<Node>, i: nat, tag: string)
    requires i < |cs| && OccSeq(cs, tag) == Occ(cs[i], tag)
    ensures KeepFirstSeq(cs, tag) == cs[i := KeepFirst(cs[i], tag)]
    decreases |cs|
  {
    var n := |cs| - 1;
    if i == n {
      KeepFirstSeqAtLast(cs, tag);
    } else {
      OccSeqMember(cs[..n], i, tag);
      assert cs[..n][i] == cs[i];
      if OccSeq(cs, tag) == 0 {
        KeepFirstSeqFixed(cs, tag);
        KeepFirstFixed(cs[i], tag);
        UpdateSame(cs, i);
      } else {
        KeepFirstSeqAt(cs[..n], i, tag);
        KeepFirstSeqAtInit(cs, i, tag);
      }
    }
  }

  /** Pruning a run whose last sibling holds every element with the tag prunes that sibling. */
  lemma KeepFirstSeqAtLast(cs: seq<Node>, tag: string)
    requires cs != [] && OccSeq(cs, tag) == Occ(cs[|cs| - 1], tag)
    ensures KeepFirstSeq(cs, tag) == cs[|cs| - 1 := KeepFirst(cs[|cs| - 1], tag)]
  {
    var n := |cs| - 1;
    assert OccSeq(cs[..n], tag) == 0;
    assert cs[..n] + [KeepFirst(cs[n], tag)] == cs[n := KeepFirst(cs[n], tag)];
  }

  /** One more sibling without the tag after the pruned run is kept as it is. */
  lemma KeepFirstSeqAtInit(cs: seq<Node>, i: nat, tag: string)
    requires i < |cs| - 1 && OccSeq(cs[..|cs| - 1], tag) > 0 && Occ(cs[|cs| - 1], tag) == 0
    requires KeepFirstSeq(cs[..|cs| - 1], tag) == cs[..|cs| - 1][i := KeepFirst(cs[i], tag)]
    ensures KeepFirstSeq(cs, tag) == cs[i := KeepFirst(cs[i], tag)]
  {
    var n, k := |cs| - 1, KeepFirst(cs[i], tag);
    DropNodeNone(cs[n], tag);
    assert KeepFirstSeq(cs, tag) == KeepFirstSeq(cs[..n], tag) + [cs[n]];
    var u := cs[..n][i := k] + [cs[n]];
    assert |u| == |cs| && forall j | 0 <= j < |u| :: u[j] == cs[i := k][j];
  }

  lemma UpdateSame<T>(s: seq<T>, i: nat)
    requires i < |s|
    ensures s[i := s[i]] == s
  {
  }

  /**
   * When every element with the tag lies inside the subtree at `p`, pruning the tree prunes that
   * subtree in place: the path still leads to it and the rest of the tree is unchanged.
   */
  lemma {:induction false} KeepFirstAlong(n: Node, p: seq<nat>, tag: string)
    requires ValidPath(n, p) && Occ(At(n, p), tag) == Occ(n, tag)
    ensures KeepFirst(n, tag) == UpdateAt(n, p, KeepFirst(At(n, p), tag))
    ensures ValidPath(KeepFirst(n, tag), p) && At(KeepFirst(n, tag), p) == KeepFirst(At(n, p), tag)
    decreases p
  {
    if p != [] {
      var c := n.children[p[0]];
      OccAtMost(c, p[1..], tag);
      OccSeqMember(n.children, p[0], tag);
      KeepFirstSeqAt(n.children, p[0], tag);
      KeepFirstAlong(c, p[1..], tag);
    }
    UpdateAtTarget(n, p, KeepFirst(At(n, p), tag));
  }
}
