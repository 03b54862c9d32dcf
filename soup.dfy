/**
 * The parsed feed as BeautifulSoup exposes it to the resolver: a forest of
 * tags in document order, addressed by paths of child indices, and the two
 * queries the resolver makes of it, `find_all` over the whole document and
 * `find_next_siblings` from one tag.
 */
module Soup {
  import opened Wrappers
  import opened Text

  /**
   * One tag. `text` is bs4's `.string`: the tag's text when the tag has exactly
   * one text child (directly or through a single child tag), otherwise `None`.
   * `children` are the child tags in document order; text children are not listed.
   */
  datatype Node = Node(name: string, attrs: map<string, string>, text: Option<string>, children: seq<Node>)

  /** The top-level tags of a parsed document. */
  type Document = seq<Node>

  /** A position: the child index at every level, starting from the document. */
  type Path = seq<nat>

  /** `p` names a tag of `forest`. */
  predicate ValidPath(forest: seq<Node>, p: Path)
    decreases p
  {
    |p| > 0 && p[0] < |forest| && (|p| == 1 || ValidPath(forest[p[0]].children, p[1..]))
  }

  /** The tag at a position. */
  function NodeAt(forest: seq<Node>, p: Path): Node
    requires ValidPath(forest, p)
    decreases p
  {
    if |p| == 1 then forest[p[0]] else NodeAt(forest[p[0]].children, p[1..])
  }

  /** The index of a tag among its siblings. */
  function Last(p: Path): nat
    requires |p| > 0
  {
    p[|p| - 1]
  }

  /** The position of a tag's parent (`[]` is the document itself). */
  function Parent(p: Path): Path
    requires |p| > 0
  {
    p[..|p| - 1]
  }

  /** The child list of the tag's parent, which holds the tag at index `Last(p)`. */
  function SiblingList(forest: seq<Node>, p: Path): (sibs: seq<Node>)
    requires ValidPath(forest, p)
    ensures Last(p) < |sibs| && sibs[Last(p)] == NodeAt(forest, p)
    decreases p
  {
    if |p| == 1 then forest else SiblingList(forest[p[0]].children, p[1..])
  }

  /** A position ending at a tag without children goes no deeper. */
  lemma LeafPath(forest: seq<Node>, q: Path)
    requires ValidPath(forest, q) && forest[q[0]].children == []
    ensures |q| == 1 && NodeAt(forest, q) == forest[q[0]]
  {
  }

  /** Replacing the last index of a position by another index of the same child list names that sibling. */
  lemma {:induction false} SiblingPath(forest: seq<Node>, p: Path, j: nat)
    requires ValidPath(forest, p) && j < |SiblingList(forest, p)|
    ensures ValidPath(forest, Parent(p) + [j])
    ensures NodeAt(forest, Parent(p) + [j]) == SiblingList(forest, p)[j]
    ensures SiblingList(forest, Parent(p) + [j]) == SiblingList(forest, p)
    decreases p
  {
    if |p| > 1 {
      var q := Parent(p) + [j];
      assert q[0] == p[0];
      assert q[1..] == Parent(p[1..]) + [j];
      SiblingPath(forest[p[0]].children, p[1..], j);
    }
  }

  /**
   * bs4's filter: a tag name, attributes whose values must match a pattern, and
   * an optional pattern for the tag's `.string`. Patterns are searched for,
   * not matched in full.
   */
  datatype Strainer = Strainer(name: string, attrs: map<string, string>, str: Option<string>)

  /** A tag passes the filter: same name, every filtered attribute present and matching, and the text matching. */
  predicate Satisfies(n: Node, f: Strainer) {
    && n.name == f.name
    && (forall k :: k in f.attrs ==> k in n.attrs && Contains(n.attrs[k], f.attrs[k]))
    && (f.str.Some? ==> n.text.Some? && Contains(n.text.value, f.str.value))
  }

  /** `p` comes strictly before `q` in document order: an ancestor comes before its descendants. */
  predicate Precedes(p: Path, q: Path)
    decreases p
  {
    |q| > 0 && (|p| == 0 || p[0] < q[0] || (p[0] == q[0] && Precedes(p[1..], q[1..])))
  }

  /** No position comes before itself. */
  lemma {:induction false} PrecedesIrreflexive(p: Path)
    ensures !Precedes(p, p)
    decreases p
  {
    if |p| > 0 {
      PrecedesIrreflexive(p[1..]);
    }
  }

  /** The positions are listed in strictly increasing document order. */
  predicate InDocumentOrder(s: seq<Path>) {
    forall a, b :: 0 <= a < b < |s| ==> Precedes(s[a], s[b])
  }

  /** A list in document order names no position twice. */
  lemma OrderedIsDistinct(s: seq<Path>)
    requires InDocumentOrder(s)
    ensures forall a, b :: 0 <= a < b < |s| ==> s[a] != s[b]
  {
    forall a, b | 0 <= a < b < |s| ensures s[a] != s[b] {
      PrecedesIrreflexive(s[a]);
    }
  }

  /** How many times `x` occurs in `s`. */
  function Occurrences<T(==)>(s: seq<T>, x: T): nat {
    if s == [] then 0 else (if s[0] == x then 1 else 0) + Occurrences(s[1..], x)
  }

  lemma {:induction false} OccurrencesOfConstant<T>(s: seq<T>, x: T)
    requires forall k :: 0 <= k < |s| ==> s[k] == x
    ensures Occurrences(s, x) == |s|
  {
    if s != [] {
      OccurrencesOfConstant(s[1..], x);
    }
  }

  lemma {:induction false} OccurrencesOfDistinct<T>(s: seq<T>, x: T)
    requires forall a, b :: 0 <= a < b < |s| ==> s[a] != s[b]
    ensures Occurrences(s, x) == if x in s then 1 else 0
  {
    if s != [] {
      OccurrencesOfDistinct(s[1..], x);
      if s[0] == x {
        forall k | 0 <= k < |s| - 1 ensures s[1..][k] != x {
          assert s[1..][k] == s[k + 1];
        }
      } else {
        assert x in s <==> x in s[1..] by {
          if x in s {
            var k :| 0 <= k < |s| && s[k] == x;
            assert s[1..][k - 1] == x;
          }
        }
      }
    }
  }

  /** A list of distinct items, each equal to `x` and `x` among them, is `[x]`. */
  lemma DistinctConstant<T>(s: seq<T>, x: T)
    requires forall a, b :: 0 <= a < b < |s| ==> s[a] != s[b]
    requires forall k :: 0 <= k < |s| ==> s[k] == x
    requires x in s
    ensures s == [x]
  {
    OccurrencesOfConstant(s, x);
    OccurrencesOfDistinct(s, x);
  }

  /** Adds `i` in front of every position. */
  function Prepend(i: nat, ps: seq<Path>): (r: seq<Path>)
    ensures |r| == |ps| && forall k :: 0 <= k < |r| ==> r[k] == [i] + ps[k]
  {
    seq(|ps|, k requires 0 <= k < |ps| => [i] + ps[k])
  }

  lemma PrependMember(i: nat, ps: seq<Path>, q: Path)
    requires q in ps
    ensures [i] + q in Prepend(i, ps)
  {
    var k :| 0 <= k < |ps| && ps[k] == q;
    assert Prepend(i, ps)[k] == [i] + q;
  }

  /** The tags of `forest[i..]` and their descendants that pass `f`, in preorder. */
  function FindAllFrom(forest: seq<Node>, i: nat, f: Strainer): seq<Path>
    requires i <= |forest|
    decreases forest, |forest| - i
  {
    if i == |forest| then []
    else
      (if Satisfies(forest[i], f) then [[i]] else [])
      + Prepend(i, FindAllFrom(forest[i].children, 0, f))
      + FindAllFrom(forest, i + 1, f)
  }

  lemma {:induction false} FindAllFromSound(forest: seq<Node>, i: nat, f: Strainer)
    requires i <= |forest|
    ensures forall q :: q in FindAllFrom(forest, i, f) ==>
      ValidPath(forest, q) && i <= q[0] && Satisfies(NodeAt(forest, q), f)
    decreases forest, |forest| - i
  {
    if i < |forest| {
      var sub := FindAllFrom(forest[i].children, 0, f);
      FindAllFromSound(forest[i].children, 0, f);
      FindAllFromSound(forest, i + 1, f);
      forall q | q in Prepend(i, sub)
        ensures ValidPath(forest, q) && i <= q[0] && Satisfies(NodeAt(forest, q), f)
      {
        var k :| 0 <= k < |sub| && Prepend(i, sub)[k] == q;
        assert q[1..] == sub[k];
      }
    }
  }

  lemma {:induction false} FindAllFromComplete(forest: seq<Node>, i: nat, f: Strainer, q: Path)
    requires i <= |forest| && ValidPath(forest, q) && i <= q[0] && Satisfies(NodeAt(forest, q), f)
    ensures q in FindAllFrom(forest, i, f)
    decreases forest, |forest| - i
  {
    var head: seq<Path> := if Satisfies(forest[i], f) then [[i]] else [];
    var sub := FindAllFrom(forest[i].children, 0, f);
    var tail := FindAllFrom(forest, i + 1, f);
    assert FindAllFrom(forest, i, f) == head + Prepend(i, sub) + tail;
    if q[0] == i {
      if |q| > 1 {
        FindAllFromComplete(forest[i].children, 0, f, q[1..]);
        assert q == [i] + q[1..];
        PrependMember(i, sub, q[1..]);
      } else {
        assert q == [i];
        assert q in head;
      }
    } else {
      FindAllFromComplete(forest, i + 1, f, q);
    }
  }

  lemma OrderedConcat(a: seq<Path>, b: seq<Path>)
    requires InDocumentOrder(a) && InDocumentOrder(b)
    requires forall x, y :: x in a && y in b ==> Precedes(x, y)
    ensures InDocumentOrder(a + b)
  {
    forall u, v | 0 <= u < v < |a + b| ensures Precedes((a + b)[u], (a + b)[v]) {
      if v < |a| {
      } else if u >= |a| {
        assert (a + b)[u] == b[u - |a|] && (a + b)[v] == b[v - |a|];
      } else {
        assert (a + b)[v] == b[v - |a|] && b[v - |a|] in b;
      }
    }
  }

  /** The positions below sibling `i` keep their order, and `i` itself comes before all of them. */
  lemma PrependOrdered(i: nat, sub: seq<Path>)
    requires InDocumentOrder(sub) && forall q :: q in sub ==> |q| > 0
    ensures InDocumentOrder(Prepend(i, sub))
    ensures forall y :: y in Prepend(i, sub) ==> |y| > 0 && y[0] == i && Precedes([i], y)
  {
    var mid := Prepend(i, sub);
    forall u, v | 0 <= u < v < |mid| ensures Precedes(mid[u], mid[v]) {
      assert mid[u][1..] == sub[u] && mid[v][1..] == sub[v];
    }
    forall y | y in mid ensures |y| > 0 && y[0] == i && Precedes([i], y) {
      var k :| 0 <= k < |mid| && mid[k] == y;
      assert sub[k] in sub;
      assert y[1..] == sub[k];
    }
  }

  /** Everything under an earlier sibling comes before everything under a later one. */
  lemma EarlierSiblingFirst(a: seq<Path>, b: seq<Path>, i: nat)
    requires forall x :: x in a ==> |x| > 0 && x[0] == i
    requires forall y :: y in b ==> |y| > 0 && i < y[0]
    ensures forall x, y :: x in a && y in b ==> Precedes(x, y)
  {
  }

  lemma {:induction false} FindAllFromOrdered(forest: seq<Node>, i: nat, f: Strainer)
    requires i <= |forest|
    ensures InDocumentOrder(FindAllFrom(forest, i, f))
    decreases forest, |forest| - i
  {
    if i < |forest| {
      var head: seq<Path> := if Satisfies(forest[i], f) then [[i]] else [];
      var sub := FindAllFrom(forest[i].children, 0, f);
      var tail := FindAllFrom(forest, i + 1, f);
      FindAllFromOrdered(forest[i].children, 0, f);
      FindAllFromOrdered(forest, i + 1, f);
      FindAllFromSound(forest[i].children, 0, f);
      FindAllFromSound(forest, i + 1, f);
      var mid := Prepend(i, sub);
      PrependOrdered(i, sub);
      OrderedConcat(head, mid);
      EarlierSiblingFirst(head + mid, tail, i);
      OrderedConcat(head + mid, tail);
    }
  }

  /**
   * `find_all`: every tag of the document that passes `f`, each exactly once,
   * in document order, and nothing else.
   */
  function FindAll(doc: Document, f: Strainer): (r: seq<Path>)
    ensures forall q :: q in r ==> ValidPath(doc, q) && Satisfies(NodeAt(doc, q), f)
    ensures forall q :: ValidPath(doc, q) && Satisfies(NodeAt(doc, q), f) ==> q in r
    ensures InDocumentOrder(r)
  {
    FindAllFromSound(doc, 0, f);
    FindAllFromOrdered(doc, 0, f);
    FindAllCompleteAt(doc, f);
    FindAllFrom(doc, 0, f)
  }

  lemma FindAllCompleteAt(doc: Document, f: Strainer)
    ensures forall q :: ValidPath(doc, q) && Satisfies(NodeAt(doc, q), f) ==> q in FindAllFrom(doc, 0, f)
  {
    forall q | ValidPath(doc, q) && Satisfies(NodeAt(doc, q), f) ensures q in FindAllFrom(doc, 0, f) {
      FindAllFromComplete(doc, 0, f, q);
    }
  }

  /** The indices `j >= from` of `s` whose tag passes `f`, in increasing order. */
  function MatchingIndices(s: seq<Node>, from: nat, f: Strainer): seq<nat>
    decreases |s| - from
  {
    if from >= |s| then []
    else (if Satisfies(s[from], f) then [from] else []) + MatchingIndices(s, from + 1, f)
  }

  /** Only indices from `from` on whose tag passes `f`. */
  lemma {:induction false} MatchingIndicesSound(s: seq<Node>, from: nat, f: Strainer, r: seq<nat>)
    requires r == MatchingIndices(s, from, f)
    ensures forall k :: 0 <= k < |r| ==> from <= r[k] < |s| && Satisfies(s[r[k]], f)
    decreases |s| - from
  {
    if from < |s| {
      var head: seq<nat> := if Satisfies(s[from], f) then [from] else [];
      var rest := MatchingIndices(s, from + 1, f);
      MatchingIndicesSound(s, from + 1, f, rest);
      assert r == head + rest;
      forall k | 0 <= k < |r| ensures from <= r[k] < |s| && Satisfies(s[r[k]], f) {
        if k >= |head| {
          assert r[k] == rest[k - |head|];
        }
      }
    }
  }

  /** The indices are strictly increasing. */
  lemma {:induction false} MatchingIndicesIncreasing(s: seq<Node>, from: nat, f: Strainer, r: seq<nat>)
    requires r == MatchingIndices(s, from, f)
    ensures forall a, b :: 0 <= a < b < |r| ==> r[a] < r[b]
    decreases |s| - from
  {
    if from < |s| {
      var head: seq<nat> := if Satisfies(s[from], f) then [from] else [];
      var rest := MatchingIndices(s, from + 1, f);
      MatchingIndicesIncreasing(s, from + 1, f, rest);
      MatchingIndicesSound(s, from + 1, f, rest);
      assert r == head + rest;
      forall a, b | 0 <= a < b < |r| ensures r[a] < r[b] {
        if a >= |head| {
          assert r[a] == rest[a - |head|];
        }
        assert r[b] == rest[b - |head|];
      }
    }
  }

  /** Every index from `from` on whose tag passes `f` is listed. */
  lemma {:induction false} MatchingIndicesComplete(s: seq<Node>, from: nat, f: Strainer, j: nat)
    requires from <= j < |s| && Satisfies(s[j], f)
    ensures j in MatchingIndices(s, from, f)
    decreases j - from
  {
    if from < j {
      MatchingIndicesComplete(s, from + 1, f, j);
    }
  }

  /** The positions `Parent(p) + [j]` for the indices `j` of `idx`. */
  function SiblingsAt(p: Path, idx: seq<nat>): (r: seq<Path>)
    requires |p| > 0
    ensures |r| == |idx| && forall k :: 0 <= k < |r| ==> r[k] == Parent(p) + [idx[k]]
  {
    seq(|idx|, k requires 0 <= k < |idx| => Parent(p) + [idx[k]])
  }

  /**
   * `find_next_siblings`: the siblings after the tag at `p` that pass `f`, in
   * document order. Every result shares `p`'s parent and lies after it, so
   * nothing before `p`, below a sibling or under another parent is returned.
   */
  function FindNextSiblings(doc: Document, p: Path, f: Strainer): (r: seq<Path>)
    requires ValidPath(doc, p)
    ensures forall k :: 0 <= k < |r| ==>
      && |r[k]| == |p| && Parent(r[k]) == Parent(p) && Last(p) < Last(r[k])
      && ValidPath(doc, r[k]) && SiblingList(doc, r[k]) == SiblingList(doc, p)
      && Satisfies(NodeAt(doc, r[k]), f)
    ensures forall j :: Last(p) < j < |SiblingList(doc, p)| && Satisfies(SiblingList(doc, p)[j], f) ==>
      Parent(p) + [j] in r
    ensures forall a, b :: 0 <= a < b < |r| ==> Last(r[a]) < Last(r[b])
  {
    var sibs := SiblingList(doc, p);
    var idx := MatchingIndices(sibs, Last(p) + 1, f);
    MatchingIndicesSound(sibs, Last(p) + 1, f, idx);
    MatchingIndicesIncreasing(sibs, Last(p) + 1, f, idx);
    forall j | Last(p) < j < |sibs| && Satisfies(sibs[j], f) ensures j in idx {
      MatchingIndicesComplete(sibs, Last(p) + 1, f, j);
    }
    SiblingsAtSound(doc, p, f, idx);
    SiblingsAtComplete(doc, p, f, idx);
    SiblingsAt(p, idx)
  }

  lemma SiblingsAtSound(doc: Document, p: Path, f: Strainer, idx: seq<nat>)
    requires ValidPath(doc, p)
    requires forall k :: 0 <= k < |idx| ==>
      Last(p) < idx[k] < |SiblingList(doc, p)| && Satisfies(SiblingList(doc, p)[idx[k]], f)
    requires forall a, b :: 0 <= a < b < |idx| ==> idx[a] < idx[b]
    ensures var r := SiblingsAt(p, idx);
      && (forall k :: 0 <= k < |r| ==>
        && |r[k]| == |p| && Parent(r[k]) == Parent(p) && Last(p) < Last(r[k])
        && ValidPath(doc, r[k]) && SiblingList(doc, r[k]) == SiblingList(doc, p)
        && Satisfies(NodeAt(doc, r[k]), f))
      && (forall a, b :: 0 <= a < b < |r| ==> Last(r[a]) < Last(r[b]))
  {
    var r := SiblingsAt(p, idx);
    forall k | 0 <= k < |r|
      ensures && |r[k]| == |p| && Parent(r[k]) == Parent(p) && Last(p) < Last(r[k])
              && ValidPath(doc, r[k]) && SiblingList(doc, r[k]) == SiblingList(doc, p)
              && Satisfies(NodeAt(doc, r[k]), f)
    {
      SiblingPath(doc, p, idx[k]);
      assert Parent(r[k]) == Parent(p);
    }
  }

  lemma SiblingsAtComplete(doc: Document, p: Path, f: Strainer, idx: seq<nat>)
    requires ValidPath(doc, p)
    requires forall j :: Last(p) < j < |SiblingList(doc, p)| && Satisfies(SiblingList(doc, p)[j], f) ==> j in idx
    ensures forall j :: Last(p) < j < |SiblingList(doc, p)| && Satisfies(SiblingList(doc, p)[j], f) ==>
      Parent(p) + [j] in SiblingsAt(p, idx)
  {
    var r := SiblingsAt(p, idx);
    forall j | Last(p) < j < |SiblingList(doc, p)| && Satisfies(SiblingList(doc, p)[j], f)
      ensures Parent(p) + [j] in r
    {
      var k :| 0 <= k < |idx| && idx[k] == j;
      assert r[k] == Parent(p) + [j];
    }
  }
}
