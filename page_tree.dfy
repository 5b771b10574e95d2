/**
 * The document as the relocation engine sees it: for each element, the list
 * of its children in order; the synthetic overlay, if one is attached; the
 * scroll suppression on `<html>` and `<body>`; the elements carrying the
 * player's inline layout styles; and the identity the next `createElement`
 * will return.
 *
 * `activateFullscreen` moves the player into a fresh overlay appended to the
 * body, `deactivateFullscreen` puts it back before its recorded next sibling
 * (or at the end of its recorded parent) and removes the overlay.
 */
module PageTree {
  import opened Wrappers
  import opened Seqs

  type Node = nat
  type Children = map<Node, seq<Node>>

  /** The element with id `fullscreen-overlay`, sized to the viewport in pixels. */
  datatype Overlay = Overlay(node: Node, width: int, height: int)

  datatype Page = Page(
    children: Children,
    body: Node,
    overlay: Option<Overlay>,
    scrollLocked: bool,
    styled: set<Node>,
    nextId: Node)

  /** Every node sits in at most one position of one child list. */
  ghost predicate Tree(c: Children) {
    forall p, q, i, j ::
      p in c && q in c && 0 <= i < |c[p]| && 0 <= j < |c[q]| && c[p][i] == c[q][j] ==> p == q && i == j
  }

  /** Every node of the page was handed out before `nextId`. */
  ghost predicate Allocated(pg: Page) {
    pg.body < pg.nextId &&
    forall p :: p in pg.children ==> p < pg.nextId && forall j :: 0 <= j < |pg.children[p]| ==> pg.children[p][j] < pg.nextId
  }

  ghost predicate WellFormed(pg: Page) {
    Tree(pg.children) && Allocated(pg) && pg.body in pg.children
  }

  /** The children of `p`; an element never listed has none. */
  function Kids(c: Children, p: Node): seq<Node> {
    if p in c then c[p] else []
  }

  /** `n.parentNode === p`. */
  predicate Attached(c: Children, n: Node, p: Node) {
    p in c && n in c[p]
  }

  /** Takes `n` out of whatever child list holds it (the first half of every DOM move). */
  function Detach(c: Children, n: Node): (d: Children)
    ensures d.Keys == c.Keys
    ensures forall p :: p in d ==> n !in d[p]
    ensures forall p, m :: p in d && m in c[p] && m != n ==> m in d[p]
    ensures forall p, m :: p in d && m in d[p] ==> m in c[p]
    ensures forall p :: p in c ==> d[p] == Remove(c[p], n)
  {
    map p | p in c :: Remove(c[p], n)
  }

  /** `p.appendChild(n)`: `n` leaves its old place and becomes the last child of `p`. */
  function AppendChild(c: Children, p: Node, n: Node): (d: Children)
    ensures d.Keys == c.Keys + {p}
    ensures |d[p]| > 0 && d[p][|d[p]| - 1] == n
    ensures forall q :: q in d && q != p ==> n !in d[q]
    ensures forall q, m :: q in d && m in d[q] ==> m == n || m in Kids(c, q)
    ensures forall q :: q in c && q != p ==> d[q] == Remove(c[q], n)
    ensures d[p] == Remove(Kids(c, p), n) + [n]
  {
    var e := Detach(c, n);
    e[p := Kids(e, p) + [n]]
  }

  /** The child list `s` with `n` placed before `ref`, or last when `ref` is not in `s`. */
  function PlaceBefore(s: seq<Node>, n: Node, ref: Node): (t: seq<Node>)
    requires n !in s
    ensures n in t && forall m :: m in t ==> m == n || m in s
    ensures ref in s ==> IndexOf(t, n) + 1 < |t| && t[IndexOf(t, n) + 1] == ref
    ensures ref in s ==> t == s[..IndexOf(s, ref)] + [n] + s[IndexOf(s, ref)..]
    ensures ref !in s ==> t == s + [n]
    ensures Distinct(s) ==> Distinct(t)
  {
    if ref in s then
      var k := IndexOf(s, ref);
      var t := s[..k] + [n] + s[k..];
      assert t[k] == n && t[..k] == s[..k];
      assert IndexOf(t, n) == k;
      assert Distinct(s) ==> Distinct(t) by {
        if Distinct(s) { DistinctInsert(s, k, n); }
      }
      t
    else
      assert Distinct(s) ==> Distinct(s + [n]) by {
        if Distinct(s) { DistinctConcat(s, [n]); }
      }
      s + [n]
  }

  /**
   * `p.insertBefore(n, ref)`: `n` leaves its old place and goes immediately
   * before `ref` among the children of `p`; when `ref` is not among them once
   * `n` has left, `n` goes last.
   */
  function InsertBefore(c: Children, p: Node, n: Node, ref: Node): (d: Children)
    ensures d.Keys == c.Keys + {p}
    ensures n in d[p]
    ensures forall q :: q in d && q != p ==> n !in d[q]
    ensures forall q, m :: q in d && m in d[q] ==> m == n || m in Kids(c, q)
    ensures ref in Kids(Detach(c, n), p) ==> IndexOf(d[p], n) + 1 < |d[p]| && d[p][IndexOf(d[p], n) + 1] == ref
    ensures ref !in Kids(Detach(c, n), p) ==> d[p][|d[p]| - 1] == n
    ensures forall q :: q in c && q != p ==> d[q] == Remove(c[q], n)
    ensures d[p] == PlaceBefore(Remove(Kids(c, p), n), n, ref)
  {
    var e := Detach(c, n);
    e[p := PlaceBefore(Kids(e, p), n, ref)]
  }

  /** `player.nextSibling`, for a player listed under `p`. */
  function NextSibling(c: Children, p: Node, x: Node): (r: Option<Node>)
    requires Attached(c, x, p)
    ensures r.Some? ==> Attached(c, r.value, p)
    ensures r.Some? ==> IndexOf(c[p], x) + 1 < |c[p]| && c[p][IndexOf(c[p], x) + 1] == r.value
    ensures r.None? ==> c[p][|c[p]| - 1] == x
  {
    var s := c[p];
    var i := IndexOf(s, x);
    if i + 1 < |s| then Some(s[i + 1]) else None
  }

  /**
   * `x.parentNode`, found by looking through the elements `from`, `from + 1`,
   * ..., `upto - 1` for the one whose child list holds `x`.
   */
  function FindParent(c: Children, x: Node, from: nat, upto: nat): (r: Option<Node>)
    ensures r.Some? ==> Attached(c, x, r.value) && from <= r.value < upto
    ensures r.None? ==> forall q :: from <= q < upto && q in c ==> x !in c[q]
    decreases upto - from
  {
    if from >= upto then None
    else if from in c && x in c[from] then Some(from)
    else FindParent(c, x, from + 1, upto)
  }

  /** `x.parentNode` in the page: every element of the page is below `nextId`. */
  function ParentOf(pg: Page, x: Node): (r: Option<Node>)
    ensures r.Some? ==> Attached(pg.children, x, r.value) && r.value < pg.nextId
    ensures Allocated(pg) && r.None? ==> forall q :: q in pg.children ==> x !in pg.children[q]
  {
    FindParent(pg.children, x, 0, pg.nextId)
  }

  /** In a tree the parent found is the one list that holds the node. */
  lemma ParentOfUnique(pg: Page, p: Node, i: nat)
    requires WellFormed(pg) && p in pg.children && i < |pg.children[p]|
    ensures ParentOf(pg, pg.children[p][i]) == Some(p)
  {
    var x := pg.children[p][i];
    var r := ParentOf(pg, x);
    if r.Some? {
      var j := IndexOf(pg.children[r.value], x);
      assert pg.children[r.value][j] == pg.children[p][i];
    }
  }

  /** The relocation record `activateFullscreen` keeps: `originalParent`, `originalNextSibling`. */
  datatype Record = Record(parent: Option<Node>, next: Option<Node>)

  /**
   * The tree changes of `activateFullscreen` once the player `x` has been
   * found and judged ready: scrolling is suppressed, a fresh overlay sized
   * `width` by `height` receives the player and is appended to the body.
   */
  function Enter(pg: Page, x: Node, width: int, height: int): (r: Page)
    requires Allocated(pg) && x < pg.nextId
    ensures r.overlay == Some(Overlay(pg.nextId, width, height))
    ensures pg.nextId in r.children && r.children[pg.nextId] == [x]
    ensures Attached(r.children, pg.nextId, pg.body)
    ensures forall q :: q in r.children && q != pg.nextId ==> x !in r.children[q]
    ensures r.scrollLocked && r.styled == pg.styled + {x}
    ensures r.body == pg.body && r.nextId == pg.nextId + 1
  {
    var o := pg.nextId;
    var holding := AppendChild(pg.children, o, x);
    var c := AppendChild(holding, pg.body, o);
    assert holding[o] == [x] by {
      assert Kids(pg.children, o) == [];
    }
    assert c[o] == [x] by {
      assert c[o] == Remove([x], o);
      assert [x][1..] == [];
    }
    Page(c, pg.body, Some(Overlay(o, width, height)), true, pg.styled + {x}, o + 1)
  }

  /** Where `deactivateFullscreen` puts the player `x` back under `p`. */
  function Restore(c: Children, x: Node, p: Node, next: Option<Node>): (d: Children)
    ensures Attached(d, x, p) && d.Keys == c.Keys + {p}
    ensures forall q :: q in d && q != p ==> x !in d[q]
    ensures forall q, m :: q in d && m in d[q] ==> m == x || m in Kids(c, q)
    ensures next.Some? && Attached(c, next.value, p) && next.value != x ==>
      IndexOf(d[p], x) + 1 < |d[p]| && d[p][IndexOf(d[p], x) + 1] == next.value
    ensures next.None? || !Attached(c, next.value, p) ==> d[p][|d[p]| - 1] == x
    ensures forall q :: q in c && q != p ==> d[q] == Remove(c[q], x)
    ensures d[p] == if next.Some? && Attached(c, next.value, p)
      then PlaceBefore(Remove(Kids(c, p), x), x, next.value)
      else Remove(Kids(c, p), x) + [x]
  {
    if next.Some? && Attached(c, next.value, p) then
      assert next.value != x ==> next.value in Kids(Detach(c, x), p);
      InsertBefore(c, p, x, next.value)
    else AppendChild(c, p, x)
  }

  /**
   * The tree changes of `deactivateFullscreen` while an overlay exists:
   * `found` is the player found inside the overlay and `rec` the relocation
   * record.  With both present the player loses its inline styles and goes
   * back; in every case the overlay is removed and scrolling restored.
   */
  function Exit(pg: Page, found: Option<Node>, rec: Record): (r: Page)
    requires pg.overlay.Some?
    ensures r.overlay.None? && !r.scrollLocked
    ensures pg.overlay.value.node !in r.children
    ensures forall q :: q in r.children ==> pg.overlay.value.node !in r.children[q]
    ensures found.Some? && rec.parent.Some? && found.value != pg.overlay.value.node && rec.parent.value != pg.overlay.value.node ==>
      Attached(r.children, found.value, rec.parent.value) && r.styled == pg.styled - {found.value}
    ensures found.None? || rec.parent.None? ==> r.styled == pg.styled
    ensures r.body == pg.body && r.nextId == pg.nextId
    ensures found.None? || rec.parent.None? ==>
      var o := pg.overlay.value.node;
      r.children.Keys == pg.children.Keys - {o} &&
      forall q :: q in r.children ==> r.children[q] == Remove(pg.children[q], o)
    ensures found.Some? && rec.parent.Some? ==>
      var o, x, p := pg.overlay.value.node, found.value, rec.parent.value;
      var d := Restore(pg.children, x, p, rec.next);
      r.children.Keys == (pg.children.Keys + {p}) - {o} &&
      (forall q :: q in r.children && q != p ==> r.children[q] == Remove(Remove(pg.children[q], x), o)) &&
      (p != o ==> r.children[p] == Remove(d[p], o))
  {
    var o := pg.overlay.value.node;
    if found.Some? && rec.parent.Some? then
      var x, p := found.value, rec.parent.value;
      var d := Restore(pg.children, x, p, rec.next);
      var e := Detach(d, o) - {o};
      assert p != o && x != o ==> x in e[p];
      Page(e, pg.body, None, false, pg.styled - {x}, pg.nextId)
    else
      Page(Detach(pg.children, o) - {o}, pg.body, None, false, pg.styled, pg.nextId)
  }

  lemma EnterAllocated(pg: Page, x: Node, width: int, height: int)
    requires Allocated(pg) && x < pg.nextId && pg.body in pg.children
    ensures var r := Enter(pg, x, width, height); Allocated(r) && r.body in r.children
  {
    var r := Enter(pg, x, width, height);
    var c, o := pg.children, pg.nextId;
    EnterLists(pg, x, width, height);
    forall q, j | q in r.children && 0 <= j < |r.children[q]| ensures r.children[q][j] < r.nextId {
      var m := r.children[q][j];
      assert m in r.children[q];
      if m != o && m != x {
        assert m in c[q];
        var k := IndexOf(c[q], m);
        assert c[q][k] < o;
      }
    }
  }

  lemma ExitAllocated(pg: Page, found: Option<Node>, rec: Record)
    requires pg.overlay.Some? && Allocated(pg) && pg.body in pg.children
    requires found.Some? ==> found.value < pg.nextId
    requires rec.parent.Some? ==> rec.parent.value < pg.nextId
    requires pg.body != pg.overlay.value.node
    ensures var r := Exit(pg, found, rec); Allocated(r) && r.body in r.children
  {
    var r := Exit(pg, found, rec);
    var o := pg.overlay.value.node;
    if found.Some? && rec.parent.Some? {
      var d := Restore(pg.children, found.value, rec.parent.value, rec.next);
      assert r.children == Detach(d, o) - {o};
      forall q, j | q in r.children && 0 <= j < |r.children[q]| ensures r.children[q][j] < r.nextId {
        var m := r.children[q][j];
        assert m in d[q];
        if m != found.value {
          assert m in pg.children[q];
          var k := IndexOf(pg.children[q], m);
          assert pg.children[q][k] < pg.nextId;
        }
      }
      assert forall q :: q in r.children ==> q in pg.children || q == rec.parent.value;
      assert r.body in d;
    } else {
      forall q, j | q in r.children && 0 <= j < |r.children[q]| ensures r.children[q][j] < r.nextId {
        var m := r.children[q][j];
        assert m in pg.children[q];
        var k := IndexOf(pg.children[q], m);
        assert pg.children[q][k] < pg.nextId;
      }
    }
  }

  /** The list `t` under `q`, followed by the overlay `o` when `q` is the body `b`. */
  function WithOverlay(t: seq<Node>, q: Node, b: Node, o: Node): seq<Node> {
    if q == b then t + [o] else t
  }

  lemma WithoutOverlay(t: seq<Node>, q: Node, b: Node, o: Node)
    requires o !in t
    ensures Remove(WithOverlay(t, q, b, o), o) == t
  {
    RemoveAbsent(t, o);
    if q == b {
      RemoveConcat(t, [o], o);
      assert Remove([o], o) == [] by { assert [o][1..] == []; }
    }
  }

  /**
   * What the round trip needs of the page: the player `c[p][i]` occurs once,
   * under `p` only, and the identity `nextId` is nowhere in the tree.
   */
  ghost predicate Placed(pg: Page, p: Node, i: nat) {
    var c, o := pg.children, pg.nextId;
    p in c && i < |c[p]| && Distinct(c[p]) && c[p][i] != o && p != o &&
    pg.body in c && pg.body != o &&
    (forall q :: q in c && q != p ==> c[p][i] !in c[q]) &&
    (forall q :: q in c ==> o !in c[q] && q != o)
  }

  lemma TreeFacts(pg: Page, p: Node, i: nat)
    requires WellFormed(pg) && p in pg.children && i < |pg.children[p]|
    ensures Placed(pg, p, i)
    ensures IndexOf(pg.children[p], pg.children[p][i]) == i
  {
  }

  /**
   * The tree while the player `c[p][i]` is inside the overlay: the overlay
   * holds the player alone, the player's old list has closed its gap and the
   * overlay is the last child of the body.
   */
  ghost predicate Inside(pg: Page, p: Node, i: nat, c2: Children)
    requires p in pg.children && i < |pg.children[p]|
  {
    var c, s, o := pg.children, pg.children[p], pg.nextId;
    c2.Keys == c.Keys + {o} && c2[o] == [s[i]] &&
    (forall q :: q in c && q != p ==> c2[q] == WithOverlay(c[q], q, pg.body, o)) &&
    c2[p] == WithOverlay(s[..i] + s[i + 1..], p, pg.body, o)
  }

  /** Every list `Enter` leaves, in terms of the lists before. */
  lemma EnterLists(pg: Page, x: Node, width: int, height: int)
    requires Allocated(pg) && x < pg.nextId && pg.body in pg.children
    ensures var r, c, o := Enter(pg, x, width, height).children, pg.children, pg.nextId;
      r.Keys == c.Keys + {o} && r[o] == [x] && r[pg.body] == Remove(c[pg.body], x) + [o] &&
      forall q :: q in c && q != pg.body ==> r[q] == Remove(c[q], x)
  {
    var c, o, b := pg.children, pg.nextId, pg.body;
    var c1 := AppendChild(c, o, x);
    var r := AppendChild(c1, b, o);
    assert Enter(pg, x, width, height).children == r;
    assert Kids(c, o) == [];
    forall q | q in c1 ensures o !in c1[q] {
      forall m | m in c1[q] ensures m < o {
        if m != x {
          var k := IndexOf(c[q], m);
          assert c[q][k] < o;
        }
      }
    }
    forall q | q in c1 && q != b ensures r[q] == c1[q] {
      RemoveAbsent(c1[q], o);
    }
    RemoveAbsent(c1[b], o);
  }

  lemma EnterShape(pg: Page, p: Node, i: nat, width: int, height: int)
    requires Placed(pg, p, i) && Allocated(pg)
    ensures Inside(pg, p, i, Enter(pg, pg.children[p][i], width, height).children)
  {
    var c, s, o, b := pg.children, pg.children[p], pg.nextId, pg.body;
    var x := s[i];
    EnterLists(pg, x, width, height);
    var r := Enter(pg, x, width, height).children;
    forall q | q in c && q != p ensures r[q] == WithOverlay(c[q], q, b, o) {
      RemoveAbsent(c[q], x);
    }
    RemoveOnly(s, i);
    assert r[p] == WithOverlay(s[..i] + s[i + 1..], p, b, o);
  }

  /** Taking the player out of the overlay empties the overlay and touches nothing else. */
  lemma DetachPlayer(pg: Page, p: Node, i: nat, c2: Children)
    requires Placed(pg, p, i) && Inside(pg, p, i, c2)
    ensures var e := Detach(c2, pg.children[p][i]);
      e.Keys == c2.Keys && e[pg.nextId] == [] && forall q :: q in pg.children ==> e[q] == c2[q]
  {
    var c, s, o := pg.children, pg.children[p], pg.nextId;
    var x := s[i];
    var e := Detach(c2, x);
    assert s == s[..i] + [x] + s[i + 1..];
    forall q | q in c ensures e[q] == c2[q] {
      if q == p {
        assert x !in s[..i] + s[i + 1..];
      }
      RemoveAbsent(c2[q], x);
    }
    assert e[o] == [] by {
      assert c2[o] == [x] && [x][1..] == [];
    }
  }

  /** In the player's old list, its next sibling now sits where the player was. */
  lemma GapList(s: seq<Node>, i: nat, p: Node, b: Node, o: Node)
    requires i + 1 < |s| && Distinct(s)
    ensures var t := WithOverlay(s[..i] + s[i + 1..], p, b, o);
      s[i + 1] in t && IndexOf(t, s[i + 1]) == i && t[..i] + [s[i]] + t[i..] == WithOverlay(s, p, b, o)
  {
    var t := WithOverlay(s[..i] + s[i + 1..], p, b, o);
    var y := s[i + 1];
    assert t[..i] == s[..i] && t[i] == y;
    assert y !in s[..i];
    assert s == s[..i] + [s[i]] + s[i + 1..];
    if p == b {
      assert t[i..] == s[i + 1..] + [o];
    } else {
      assert t[i..] == s[i + 1..];
    }
  }

  /** `player.nextSibling` of the player at index `i` of a list without repetitions. */
  lemma NextSiblingAt(c: Children, p: Node, i: nat)
    requires p in c && i < |c[p]| && Distinct(c[p])
    ensures NextSibling(c, p, c[p][i]) == if i + 1 < |c[p]| then Some(c[p][i + 1]) else None
  {
    var j := IndexOf(c[p], c[p][i]);
    assert c[p][j] == c[p][i];
  }

  /** Reinsertion before the recorded sibling closes the gap the player left. */
  lemma RestoreBefore(pg: Page, p: Node, i: nat, c2: Children)
    requires Placed(pg, p, i) && i + 1 < |pg.children[p]| && Inside(pg, p, i, c2)
    ensures var c, s, o := pg.children, pg.children[p], pg.nextId;
      var c3 := Restore(c2, s[i], p, NextSibling(c, p, s[i]));
      c3.Keys == c2.Keys && c3[o] == [] && (forall q :: q in c && q != p ==> c3[q] == c2[q]) &&
      c3[p] == WithOverlay(s, p, pg.body, o)
  {
    var c, s, o, b := pg.children, pg.children[p], pg.nextId, pg.body;
    var x, y := s[i], s[i + 1];
    NextSiblingAt(c, p, i);
    DetachPlayer(pg, p, i, c2);
    GapList(s, i, p, b, o);
    var t := WithOverlay(s[..i] + s[i + 1..], p, b, o);
    assert Remove(Kids(c2, p), x) == t;
    assert Attached(c2, y, p);
    var c3 := Restore(c2, x, p, Some(y));
    assert c3[p] == PlaceBefore(t, x, y);
  }

  /** With no recorded sibling the player was last, and appending puts it last again. */
  lemma RestoreLast(pg: Page, p: Node, i: nat, c2: Children)
    requires Placed(pg, p, i) && i + 1 == |pg.children[p]| && Inside(pg, p, i, c2)
    ensures var c, s, o := pg.children, pg.children[p], pg.nextId;
      var c3 := Restore(c2, s[i], p, NextSibling(c, p, s[i]));
      c3.Keys == c2.Keys && c3[o] == [] && (forall q :: q in c && q != p ==> c3[q] == c2[q]) &&
      Remove(c3[p], o) == s
  {
    var c, s, o, b := pg.children, pg.children[p], pg.nextId, pg.body;
    var x := s[i];
    DetachPlayer(pg, p, i, c2);
    assert NextSibling(c, p, x).None?;
    var c3 := Restore(c2, x, p, None);
    assert c3 == AppendChild(c2, p, x);
    assert s == s[..i] + [x];
    var t := WithOverlay(s[..i], p, b, o);
    assert s[..i] + s[i + 1..] == s[..i];
    assert c3[p] == t + [x];
    RemoveConcat(t, [x], o);
    WithoutOverlay(s[..i], p, b, o);
    RemoveAbsent([x], o);
  }

  /** Removing the emptied overlay leaves the lists `c` had before the overlay existed. */
  lemma DropOverlay(c: Children, c3: Children, p: Node, b: Node, o: Node)
    requires o !in c && p in c
    requires forall q :: q in c ==> o !in c[q]
    requires c3.Keys == c.Keys + {o} && Remove(c3[p], o) == c[p]
    requires forall q :: q in c && q != p ==> c3[q] == WithOverlay(c[q], q, b, o)
    ensures Detach(c3, o) - {o} == c
  {
    var f := Detach(c3, o) - {o};
    forall q | q in c && q != p ensures f[q] == c[q] {
      WithoutOverlay(c[q], q, b, o);
    }
    assert f.Keys == c.Keys;
  }

  /** Putting the player back and removing the overlay undoes `EnterShape`. */
  lemma ExitShape(pg: Page, p: Node, i: nat, c2: Children)
    requires Placed(pg, p, i) && Inside(pg, p, i, c2)
    ensures var c, s, o := pg.children, pg.children[p], pg.nextId;
      Detach(Restore(c2, s[i], p, NextSibling(c, p, s[i])), o) - {o} == c
  {
    var c, s, o, b := pg.children, pg.children[p], pg.nextId, pg.body;
    var c3 := Restore(c2, s[i], p, NextSibling(c, p, s[i]));
    if i + 1 < |s| {
      RestoreBefore(pg, p, i, c2);
      WithoutOverlay(s, p, b, o);
    } else {
      RestoreLast(pg, p, i, c2);
    }
    DropOverlay(c, c3, p, b, o);
  }

  /** `Tree` stated by membership: no list repeats a node and no two lists share one. */
  ghost predicate Forest(c: Children) {
    (forall p | p in c :: Distinct(c[p])) &&
    (forall p, q, y | p in c && q in c && p != q && y in c[p] :: y !in c[q])
  }

  lemma TreeIsForest(c: Children)
    ensures Tree(c) <==> Forest(c)
  {
    if Tree(c) {
      forall p, q, y | p in c && q in c && p != q && y in c[p] ensures y !in c[q] {
        var i := IndexOf(c[p], y);
      }
    }
    if Forest(c) {
      forall p, q, i, j | p in c && q in c && 0 <= i < |c[p]| && 0 <= j < |c[q]| && c[p][i] == c[q][j]
        ensures p == q && i == j
      {
        assert c[p][i] in c[p] && c[q][j] in c[q];
      }
    }
  }

  /** Replacing the list of `p` by one without repetitions that shares no node with the other lists. */
  lemma PutForest(c: Children, p: Node, s: seq<Node>)
    requires Forest(c) && Distinct(s)
    requires forall y, q | y in s && q in c && q != p :: y !in c[q]
    ensures Forest(c[p := s])
  {
  }

  lemma DetachForest(c: Children, n: Node)
    requires Forest(c)
    ensures Forest(Detach(c, n))
  {
    var d := Detach(c, n);
    forall p | p in d ensures Distinct(d[p]) {
      RemoveDistinct(c[p], n);
    }
  }

  lemma AppendForest(c: Children, p: Node, n: Node)
    requires Forest(c)
    ensures Forest(AppendChild(c, p, n))
  {
    var e := Detach(c, n);
    DetachForest(c, n);
    var k := Kids(e, p);
    DistinctConcat(k, [n]);
    PutForest(e, p, k + [n]);
  }

  lemma InsertForest(c: Children, p: Node, n: Node, ref: Node)
    requires Forest(c)
    ensures Forest(InsertBefore(c, p, n, ref))
  {
    var e := Detach(c, n);
    DetachForest(c, n);
    PutForest(e, p, PlaceBefore(Kids(e, p), n, ref));
  }

  /** Entering the overlay keeps the page a tree. */
  lemma EnterTree(pg: Page, x: Node, width: int, height: int)
    requires WellFormed(pg) && x < pg.nextId
    ensures Tree(Enter(pg, x, width, height).children)
  {
    var c, o := pg.children, pg.nextId;
    TreeIsForest(c);
    AppendForest(c, o, x);
    AppendForest(AppendChild(c, o, x), pg.body, o);
    TreeIsForest(Enter(pg, x, width, height).children);
  }

  lemma RestoreForest(c: Children, x: Node, p: Node, next: Option<Node>)
    requires Forest(c)
    ensures Forest(Restore(c, x, p, next))
  {
    if next.Some? && Attached(c, next.value, p) {
      InsertForest(c, p, x, next.value);
    } else {
      AppendForest(c, p, x);
    }
  }

  /** Dropping a parent's entry keeps a forest. */
  lemma DropForest(c: Children, n: Node)
    requires Forest(c)
    ensures Forest(c - {n})
  {
  }

  /** Leaving the overlay keeps the page a tree, wherever the player found goes. */
  lemma ExitTree(pg: Page, found: Option<Node>, rec: Record)
    requires pg.overlay.Some? && Tree(pg.children)
    ensures Tree(Exit(pg, found, rec).children)
  {
    var c, o := pg.children, pg.overlay.value.node;
    TreeIsForest(c);
    if found.Some? && rec.parent.Some? {
      var d := Restore(c, found.value, rec.parent.value, rec.next);
      RestoreForest(c, found.value, rec.parent.value, rec.next);
      DetachForest(d, o);
      DropForest(Detach(d, o), o);
      ExitChildren(pg, found.value, rec);
    } else {
      DetachForest(c, o);
      DropForest(Detach(c, o), o);
      assert Exit(pg, found, rec).children == Detach(c, o) - {o};
    }
    TreeIsForest(Exit(pg, found, rec).children);
  }

  /** With the player found and a parent recorded, the lists `Exit` leaves. */
  lemma ExitChildren(pg: Page, x: Node, rec: Record)
    requires pg.overlay.Some? && rec.parent.Some?
    ensures Exit(pg, Some(x), rec).children ==
      Detach(Restore(pg.children, x, rec.parent.value, rec.next), pg.overlay.value.node) - {pg.overlay.value.node}
  {
  }

  /** The child lists after the round trip, as `ExitShape` computes them. */
  lemma RoundTripChildren(pg: Page, p: Node, i: nat, width: int, height: int)
    requires WellFormed(pg) && p in pg.children && i < |pg.children[p]|
    ensures var x := pg.children[p][i];
      var inside := Enter(pg, x, width, height);
      inside.overlay.Some? &&
      Exit(inside, Some(x), Record(Some(p), NextSibling(pg.children, p, x))).children == pg.children
  {
    var x := pg.children[p][i];
    TreeFacts(pg, p, i);
    EnterShape(pg, p, i, width, height);
    var inside := Enter(pg, x, width, height);
    ExitShape(pg, p, i, inside.children);
    ExitChildren(inside, x, Record(Some(p), NextSibling(pg.children, p, x)));
  }

  /**
   * Entering and then leaving the overlay with no other change to the page
   * puts the player back under its original parent at its original index,
   * leaves every child list as it was, removes the overlay and restores
   * scrolling.
   */
  lemma RoundTrip(pg: Page, p: Node, i: nat, width: int, height: int)
    requires WellFormed(pg) && pg.overlay.None?
    requires p in pg.children && i < |pg.children[p]|
    ensures var x := pg.children[p][i];
      var inside := Enter(pg, x, width, height);
      var back := Exit(inside, Some(x), Record(Some(p), NextSibling(pg.children, p, x)));
      back.children == pg.children && back.children[p][i] == x &&
      back.overlay.None? && !back.scrollLocked && back.styled == pg.styled - {x}
  {
    RoundTripChildren(pg, p, i, width, height);
  }
}
