/**
 * `ExtractTOC` of the JNI layer: the bookmark outline read with an explicit
 * stack into a flat list of entries, each pointing back at its parent
 * entry. PDFium's first-child / next-sibling outline is a forest here: a
 * bookmark's first child is `children[0]`, and the next sibling of a
 * bookmark is the one after it in its parent's list.
 */
module TocHelper {
  import opened JavaLang

  /** What `FPDFDest_GetLocationInPage` writes: `None` for a coordinate it leaves unwritten. */
  datatype Dest = Dest(pageIndex: int, x: Option<real>, y: Option<real>, zoom: Option<real>)

  /**
   * A bookmark: the byte length `FPDFBookmark_GetTitle` reports (the
   * terminator included), the title it writes, its destination, and its
   * children in order.
   */
  datatype Bookmark = Bookmark(titleBytes: nat, title: string, dest: Option<Dest>, children: seq<Bookmark>)

  /** The native `TOCEntry`: `x` and `y` are `None` where the code leaves them uninitialised. */
  datatype Entry = Entry(
    title: string,
    pageIndex: int,
    level: nat,
    bufferLen: nat,
    parentIndex: int,
    x: Option<real>,
    y: Option<real>,
    zoom: real)

  /** The number of bookmarks in a forest. */
  function ForestSize(f: seq<Bookmark>): nat
    decreases f
  {
    if |f| == 0 then 0 else 1 + ForestSize(f[0].children) + ForestSize(f[1..])
  }

  /**
   * The entry for one bookmark: a title of at most 2 bytes (empty, given
   * the terminator) is stored as "" with `bufferLen` 1; without a
   * destination the page is -1 and the zoom stays -1.
   */
  function MakeEntry(b: Bookmark, level: nat, parentIndex: int): (e: Entry)
    ensures e.level == level && e.parentIndex == parentIndex
    ensures b.titleBytes > 2 ==> e.title == b.title && e.bufferLen == b.titleBytes
    ensures b.titleBytes <= 2 ==> e.title == "" && e.bufferLen == 1
    ensures b.dest.None? ==> e.pageIndex == -1 && e.zoom == -1.0 && e.x.None? && e.y.None?
    ensures b.dest.Some? ==> e.pageIndex == b.dest.value.pageIndex && e.zoom == b.dest.value.zoom.GetOr(-1.0)
  {
    var (title, bufferLen) := if b.titleBytes > 2 then (b.title, b.titleBytes) else ("", 1);
    match b.dest
    case None => Entry(title, -1, level, bufferLen, parentIndex, None, None, -1.0)
    case Some(d) => Entry(title, d.pageIndex, level, bufferLen, parentIndex, d.x, d.y, d.zoom.GetOr(-1.0))
  }

  /**
   * A stack element: a bookmark with the siblings that follow it, its
   * level, and the index of its parent's entry (-1 at the top level).
   */
  datatype Frame = Frame(node: Bookmark, following: seq<Bookmark>, level: nat, parentIndex: int)

  function FrameSize(fr: Frame): nat
  {
    1 + ForestSize(fr.node.children) + ForestSize(fr.following)
  }

  /** The bookmarks still to be emitted; the top of the stack is the last frame. */
  function StackSize(stack: seq<Frame>): nat
  {
    if |stack| == 0 then 0 else StackSize(stack[..|stack| - 1]) + FrameSize(stack[|stack| - 1])
  }

  /** The frame for a non-empty forest: its first bookmark followed by the rest. */
  function FirstFrame(f: seq<Bookmark>, level: nat, parentIndex: int): (fr: Frame)
    requires |f| > 0
    ensures FrameSize(fr) == ForestSize(f)
  {
    Frame(f[0], f[1..], level, parentIndex)
  }

  /** One pending frame already obeys the rule its entry will have to obey. */
  predicate FrameFits(fr: Frame, toc: seq<Entry>)
  {
    -1 <= fr.parentIndex < |toc|
    && (fr.parentIndex == -1 <==> fr.level == 0)
    && (fr.parentIndex >= 0 ==> fr.level == toc[fr.parentIndex].level + 1)
  }

  /** Entry `j` points backwards, at an entry exactly one level up (or at nothing on level 0). */
  predicate EntryFits(toc: seq<Entry>, j: nat)
    requires j < |toc|
  {
    -1 <= toc[j].parentIndex < j
    && (toc[j].parentIndex == -1 <==> toc[j].level == 0)
    && (toc[j].parentIndex >= 0 ==> toc[j].level == toc[toc[j].parentIndex].level + 1)
  }

  /**
   * The entries point backwards: each parent index is -1 exactly at level
   * 0, and otherwise names an earlier entry exactly one level up.
   */
  predicate ParentsPrecede(toc: seq<Entry>)
  {
    forall j :: 0 <= j < |toc| ==> EntryFits(toc, j)
  }

  /** Every pending frame fits the entries emitted so far. */
  predicate FramesFit(stack: seq<Frame>, toc: seq<Entry>)
  {
    forall k :: 0 <= k < |stack| ==> FrameFits(stack[k], toc)
  }

  /** The entries after popping the top frame: its bookmark's entry is appended. */
  function NextToc(stack: seq<Frame>, toc: seq<Entry>): seq<Entry>
    requires |stack| > 0
  {
    var top := stack[|stack| - 1];
    toc + [MakeEntry(top.node, top.level, top.parentIndex)]
  }

  /** Pushing the first frame of a forest, when it has one. */
  function PushForest(stack: seq<Frame>, f: seq<Bookmark>, level: nat, parentIndex: int): seq<Frame>
  {
    if |f| > 0 then stack + [FirstFrame(f, level, parentIndex)] else stack
  }

  /**
   * The stack after popping the top frame: its first child is pushed one
   * level down with the new entry as parent, then its next sibling with
   * the same level and parent, so the sibling is on top.
   */
  function NextStack(stack: seq<Frame>, toc: seq<Entry>): seq<Frame>
    requires |stack| > 0
  {
    var top := stack[|stack| - 1];
    var withChild := PushForest(stack[..|stack| - 1], top.node.children, top.level + 1, |toc|);
    PushForest(withChild, top.following, top.level, top.parentIndex)
  }

  lemma PushSize(stack: seq<Frame>, fr: Frame)
    ensures StackSize(stack + [fr]) == StackSize(stack) + FrameSize(fr)
  {
    assert (stack + [fr])[..|stack|] == stack;
  }

  lemma StepSize(stack: seq<Frame>, toc: seq<Entry>)
    requires |stack| > 0
    ensures StackSize(NextStack(stack, toc)) + 1 == StackSize(stack)
  {
    var top := stack[|stack| - 1];
    var rest := stack[..|stack| - 1];
    var withChild := if |top.node.children| > 0 then rest + [FirstFrame(top.node.children, top.level + 1, |toc|)] else rest;
    if |top.node.children| > 0 {
      PushSize(rest, FirstFrame(top.node.children, top.level + 1, |toc|));
    }
    if |top.following| > 0 {
      PushSize(withChild, FirstFrame(top.following, top.level, top.parentIndex));
    }
  }

  /** A frame that fits keeps fitting once more entries are appended. */
  lemma FitGrows(fr: Frame, toc: seq<Entry>, more: seq<Entry>)
    requires FrameFits(fr, toc)
    ensures FrameFits(fr, toc + more)
  {
    if fr.parentIndex >= 0 {
      assert (toc + more)[fr.parentIndex] == toc[fr.parentIndex];
    }
  }

  /** The appended entry fits, because the popped frame did. */
  lemma StepKeepsParents(stack: seq<Frame>, toc: seq<Entry>)
    requires |stack| > 0 && ParentsPrecede(toc) && FrameFits(stack[|stack| - 1], toc)
    ensures ParentsPrecede(NextToc(stack, toc))
  {
    var toc' := NextToc(stack, toc);
    forall j | 0 <= j < |toc'|
      ensures EntryFits(toc', j)
    {
      if j < |toc| {
        assert toc'[j] == toc[j];
        assert EntryFits(toc, j);
        if toc[j].parentIndex >= 0 {
          assert toc'[toc[j].parentIndex] == toc[toc[j].parentIndex];
        }
      } else {
        var top := stack[|stack| - 1];
        assert toc'[j] == MakeEntry(top.node, top.level, top.parentIndex);
        if top.parentIndex >= 0 {
          assert toc'[top.parentIndex] == toc[top.parentIndex];
        }
      }
    }
  }

  /** The pushed frames fit the longer list of entries. */
  lemma StepKeepsFrames(stack: seq<Frame>, toc: seq<Entry>)
    requires |stack| > 0 && FramesFit(stack, toc)
    ensures FramesFit(NextStack(stack, toc), NextToc(stack, toc))
  {
    var top := stack[|stack| - 1];
    var toc' := NextToc(stack, toc);
    var next := NextStack(stack, toc);
    var entry := MakeEntry(top.node, top.level, top.parentIndex);
    assert toc' == toc + [entry];
    assert toc'[|toc|] == entry;
    forall k | 0 <= k < |next|
      ensures FrameFits(next[k], toc')
    {
      if k < |stack| - 1 {
        assert next[k] == stack[k];
        assert FrameFits(stack[k], toc);
        FitGrows(stack[k], toc, [entry]);
      } else if next[k].parentIndex == top.parentIndex && next[k].level == top.level {
        assert FrameFits(top, toc);
        FitGrows(top, toc, [entry]);
      }
    }
  }

  /**
   * The loop of `ExtractTOC`, run until the stack is empty: every
   * bookmark still on the stack adds one entry, and the entries keep
   * pointing backwards at their parents.
   */
  function Traverse(stack: seq<Frame>, toc: seq<Entry>): (r: seq<Entry>)
    requires ParentsPrecede(toc) && FramesFit(stack, toc)
    ensures |r| == |toc| + StackSize(stack)
    ensures r[..|toc|] == toc
    ensures ParentsPrecede(r)
    decreases StackSize(stack)
  {
    if |stack| == 0 then toc
    else
      StepSize(stack, toc);
      assert FrameFits(stack[|stack| - 1], toc);
      StepKeepsParents(stack, toc);
      StepKeepsFrames(stack, toc);
      var toc' := NextToc(stack, toc);
      var r := Traverse(NextStack(stack, toc), toc');
      assert r[..|toc|] == r[..|toc'|][..|toc|];
      r
  }

  /** What an entry records of its bookmark: the title as stored and the destination page. */
  function EntryKey(e: Entry): (string, int)
  {
    (e.title, e.pageIndex)
  }

  /** The same pair read off a bookmark: the title unless it is empty, the page or -1. */
  function Key(b: Bookmark): (string, int)
  {
    (if b.titleBytes > 2 then b.title else "", if b.dest.Some? then b.dest.value.pageIndex else -1)
  }

  /** The pairs of all bookmarks in a forest, counted with multiplicity. */
  function Keys(f: seq<Bookmark>): multiset<(string, int)>
    decreases f
  {
    if |f| == 0 then multiset{} else multiset{Key(f[0])} + Keys(f[0].children) + Keys(f[1..])
  }

  function FrameKeys(fr: Frame): multiset<(string, int)>
  {
    multiset{Key(fr.node)} + Keys(fr.node.children) + Keys(fr.following)
  }

  function StackKeys(stack: seq<Frame>): multiset<(string, int)>
  {
    if |stack| == 0 then multiset{} else StackKeys(stack[..|stack| - 1]) + FrameKeys(stack[|stack| - 1])
  }

  /** The pairs of a list of entries, counted with multiplicity. */
  function TocKeys(toc: seq<Entry>): multiset<(string, int)>
  {
    if |toc| == 0 then multiset{} else TocKeys(toc[..|toc| - 1]) + multiset{EntryKey(toc[|toc| - 1])}
  }

  lemma PushKeys(stack: seq<Frame>, fr: Frame)
    ensures StackKeys(stack + [fr]) == StackKeys(stack) + FrameKeys(fr)
  {
    assert (stack + [fr])[..|stack|] == stack;
  }

  /** A forest's first frame carries the pairs of the whole forest. */
  lemma FirstFrameKeys(f: seq<Bookmark>, level: nat, parentIndex: int)
    requires |f| > 0
    ensures FrameKeys(FirstFrame(f, level, parentIndex)) == Keys(f)
  {
  }

  lemma PushForestKeys(stack: seq<Frame>, f: seq<Bookmark>, level: nat, parentIndex: int)
    ensures StackKeys(PushForest(stack, f, level, parentIndex)) == StackKeys(stack) + Keys(f)
  {
    if |f| > 0 {
      PushKeys(stack, FirstFrame(f, level, parentIndex));
      FirstFrameKeys(f, level, parentIndex);
    }
  }

  /** The step's stack in terms of the two pushes. */
  lemma NextStackPushes(stack: seq<Frame>, toc: seq<Entry>)
    requires |stack| > 0
    ensures var top := stack[|stack| - 1];
      NextStack(stack, toc) == PushForest(PushForest(stack[..|stack| - 1], top.node.children, top.level + 1, |toc|), top.following, top.level, top.parentIndex)
  {
  }

  /** Popping a frame and pushing its child and sibling frames loses exactly the popped bookmark's pair. */
  lemma StepStackKeys(stack: seq<Frame>, toc: seq<Entry>)
    requires |stack| > 0
    ensures StackKeys(NextStack(stack, toc)) + multiset{Key(stack[|stack| - 1].node)} == StackKeys(stack)
  {
    var top := stack[|stack| - 1];
    var rest := stack[..|stack| - 1];
    var withChild := PushForest(rest, top.node.children, top.level + 1, |toc|);
    var next := PushForest(withChild, top.following, top.level, top.parentIndex);
    var key := multiset{Key(top.node)};
    var pending, children, following := StackKeys(rest), Keys(top.node.children), Keys(top.following);
    PushForestKeys(rest, top.node.children, top.level + 1, |toc|);
    PushForestKeys(withChild, top.following, top.level, top.parentIndex);
    assert StackKeys(next) == pending + children + following;
    assert StackKeys(stack) == pending + (key + children + following);
    MultisetShuffle(pending, children, following, key);
    NextStackPushes(stack, toc);
  }

  lemma MultisetShuffle<T>(a: multiset<T>, b: multiset<T>, c: multiset<T>, d: multiset<T>)
    ensures a + b + c + d == a + (d + b + c)
  {
  }

  /** Appending the popped bookmark's entry adds exactly its pair. */
  lemma StepTocKeys(stack: seq<Frame>, toc: seq<Entry>)
    requires |stack| > 0
    ensures TocKeys(NextToc(stack, toc)) == TocKeys(toc) + multiset{Key(stack[|stack| - 1].node)}
  {
    var toc' := NextToc(stack, toc);
    assert toc'[..|toc|] == toc;
  }

  /** The loop emits the pairs of exactly the bookmarks on the stack, each as often as it occurs. */
  lemma {:induction false} TraverseKeys(stack: seq<Frame>, toc: seq<Entry>)
    requires ParentsPrecede(toc) && FramesFit(stack, toc)
    ensures TocKeys(Traverse(stack, toc)) == TocKeys(toc) + StackKeys(stack)
    decreases StackSize(stack)
  {
    if |stack| > 0 {
      StepSize(stack, toc);
      StepKeepsParents(stack, toc);
      StepKeepsFrames(stack, toc);
      StepStackKeys(stack, toc);
      StepTocKeys(stack, toc);
      TraverseKeys(NextStack(stack, toc), NextToc(stack, toc));
    }
  }

  /**
   * `ExtractTOC`: nothing without a root bookmark; otherwise the traversal
   * from the root and its siblings at level 0 with no parent, emitting one
   * entry per bookmark.
   */
  function ExtractToc(roots: seq<Bookmark>): (toc: seq<Entry>)
    ensures |roots| == 0 ==> toc == []
    ensures |toc| == ForestSize(roots)
    ensures |roots| > 0 ==> toc[0] == MakeEntry(roots[0], 0, -1)
    ensures ParentsPrecede(toc)
  {
    if |roots| == 0 then []
    else
      var stack := [FirstFrame(roots, 0, -1)];
      assert StackSize(stack) == ForestSize(roots) by {
        assert stack[..0] == [];
      }
      var r := Traverse(stack, []);
      assert r[..1] == NextToc(stack, []) by {
        StepSize(stack, []);
        StepKeepsParents(stack, []);
        StepKeepsFrames(stack, []);
        var r' := Traverse(NextStack(stack, []), NextToc(stack, []));
        assert r == r';
      }
      r
  }

  /**
   * Every bookmark of the outline is emitted exactly once: the entries'
   * titles and pages are the bookmarks', counted with multiplicity.
   */
  lemma ExtractTocKeys(roots: seq<Bookmark>)
    ensures TocKeys(ExtractToc(roots)) == Keys(roots)
  {
    if |roots| > 0 {
      var stack := [FirstFrame(roots, 0, -1)];
      assert stack[..0] == [];
      FirstFrameKeys(roots, 0, -1);
      assert StackKeys(stack) == Keys(roots);
      TraverseKeys(stack, []);
    }
  }

  /**
   * The traversal is not a preorder: for a root `A` with child `C` and
   * next sibling `B`, the sibling `B` is emitted before `C`, and `C`
   * still points at `A`.
   */
  lemma SiblingBeforeChild()
    ensures var c := Bookmark(4, "C", None, []);
      var a := Bookmark(4, "A", None, [c]);
      var b := Bookmark(4, "B", None, []);
      var toc := ExtractToc([a, b]);
      |toc| == 3 && toc[0].title == "A" && toc[1].title == "B" && toc[2].title == "C"
      && toc[1].parentIndex == -1 && toc[2].parentIndex == 0 && toc[2].level == 1
  {
    var c := Bookmark(4, "C", None, []);
    var a := Bookmark(4, "A", None, [c]);
    var b := Bookmark(4, "B", None, []);
    var ea := MakeEntry(a, 0, -1);
    var eb := MakeEntry(b, 0, -1);
    var ec := MakeEntry(c, 1, 0);
    var s0 := [Frame(a, [b], 0, -1)];
    var s1 := [Frame(c, [], 1, 0), Frame(b, [], 0, -1)];
    var s2 := [Frame(c, [], 1, 0)];
    assert [a, b][1..] == [b];
    assert NextStack(s0, []) == s1 && NextToc(s0, []) == [ea];
    assert s1[..1] == s2;
    assert NextStack(s1, [ea]) == s2 && NextToc(s1, [ea]) == [ea, eb];
    assert NextStack(s2, [ea, eb]) == [] && NextToc(s2, [ea, eb]) == [ea, eb, ec];
  }
}
