/** What a swap means for the pixels, and why the order of a list of swaps does not matter. */
module DbeSwap {
  import opened Options
  import opened Images
  import opened Resources
  import opened DbeState
  import opened DbeRequests
  import opened DbeInvariant

  /** What a client can tell about one double-buffered window. */
  datatype View = View(shown: Image, back: Image, front: Image, record: Record, aliases: map<XID, PixId>)

  ghost function ViewOf(s: State, w: XID): View
    requires CanSwap(s, w)
  {
    var r := s.recs[w];
    View(s.windows[w].contents, s.pixmaps[r.back], s.pixmaps[r.front], r,
         map id | id in s.drawRes && id in r.names :: s.drawRes[id])
  }

  /** The window shows what was in the back buffer. The new back buffer holds the old window contents
      (Untouched), the old back buffer (Copied, Undefined) or the background where there is one. */
  lemma SwapMeaning(s: State, w: XID, action: int)
    requires Inv(s) && w in s.recs && ValidAction(action)
    ensures CanSwap(s, w) && CanSwap(Swapped(s, w, action), w)
    ensures var was, now := ViewOf(s, w), ViewOf(Swapped(s, w, action), w);
            var win := s.windows[w];
            && now.shown == was.back
            && now.back ==
               (if action == XDBE_UNTOUCHED then was.shown
                else if action == XDBE_BACKGROUND && win.painter.Some? then
                  Filled(win.painter.value, win.width, win.height)
                else was.back)
            && now.front == (if action == XDBE_UNTOUCHED then was.back else was.front)
            && now.record == (if action == XDBE_UNTOUCHED then Exchanged(was.record) else was.record)
            && forall id :: id in now.record.names ==> id in now.aliases && now.aliases[id] == now.record.back
  {
    assert RecordNamed(s, w) && PairLive(s, w) && RecordSized(s, w) && WindowSized(s, w);
    var r, win := s.recs[w], s.windows[w];
    forall id | id in r.names ensures id in s.drawRes && s.drawRes[id] == r.back {
      assert id in s.privRes && s.privRes[id] == w;
    }
    WholeCopy(win.contents, s.pixmaps[r.front], win.width, win.height);
    WholeCopy(s.pixmaps[r.back], win.contents, win.width, win.height);
    if win.painter.Some? {
      WholeFill(win.painter.value, s.pixmaps[r.back], r.width, r.height);
    }
  }

  /** Swapping untouched twice restores the window, both buffers as the client sees them, the pixmap
      pointers and what every name denotes; only the hidden front pixmap keeps the window's old pixels. */
  lemma TwoUntouchedSwaps(s: State, w: XID)
    requires Inv(s) && w in s.recs
    ensures w in s.windows
    ensures Swapped(Swapped(s, w, XDBE_UNTOUCHED), w, XDBE_UNTOUCHED) ==
            s.(pixmaps := s.pixmaps[s.recs[w].front := s.windows[w].contents])
  {
    var t := Swapped(s, w, XDBE_UNTOUCHED);
    var u := Swapped(t, w, XDBE_UNTOUCHED);
    SwapMeaning(s, w, XDBE_UNTOUCHED);
    SwappedInv(s, w, XDBE_UNTOUCHED);
    SwapMeaning(t, w, XDBE_UNTOUCHED);
    AliasBack(s, w);
    assert PairLive(s, w);
    TwoSwapsPixmaps(s, t, u, w);
    assert u.windows == s.windows;
    assert u.recs == s.recs;
  }

  lemma TwoSwapsPixmaps(s: State, t: State, u: State, w: XID)
    requires CanSwap(s, w) && t == Swapped(s, w, XDBE_UNTOUCHED)
    requires CanSwap(t, w) && u == Swapped(t, w, XDBE_UNTOUCHED) && CanSwap(u, w)
    requires s.recs[w].front != s.recs[w].back
    requires ViewOf(u, w).front == ViewOf(s, w).shown && ViewOf(u, w).back == ViewOf(s, w).back
    ensures u.pixmaps == s.pixmaps[s.recs[w].front := s.windows[w].contents]
  {
    var r := s.recs[w];
    assert t.recs[w] == Exchanged(r) && u.recs[w] == r;
    forall p | p in u.pixmaps ensures p in s.pixmaps && (p == r.front || u.pixmaps[p] == s.pixmaps[p]) {}
  }

  lemma AliasBack(s: State, w: XID)
    requires Inv(s) && w in s.recs
    ensures Alias(Alias(s.drawRes, s.recs[w].names, s.recs[w].front), s.recs[w].names, s.recs[w].back) == s.drawRes
  {
    assert RecordNamed(s, w);
  }

  // ---------------------------------------------------------------- order

  /** A swap of one window leaves another as it is. */
  lemma SwapElsewhere(s: State, v: XID, w: XID, action: int)
    requires Core(s) && v != w
    ensures CanSwap(Swapped(s, v, action), w) == CanSwap(s, w)
    ensures CanSwap(s, w) ==> ViewOf(Swapped(s, v, action), w) == ViewOf(s, w)
    ensures w in s.windows ==> w in Swapped(s, v, action).windows && Swapped(s, v, action).windows[w] == s.windows[w]
  {
    if CanSwap(s, v) && CanSwap(s, w) {
      var t := Swapped(s, v, action);
      assert Apart(s, v, w) && RecordNamed(s, v) && RecordNamed(s, w);
      assert ViewOf(t, w).aliases == ViewOf(s, w).aliases;
    }
  }

  lemma AliasesCommute(drawRes: map<XID, PixId>, q: Record, a: int, r: Record, b: int)
    requires forall id :: id in q.names ==> id !in r.names
    ensures AliasesAfter(AliasesAfter(drawRes, q, a), r, b) == AliasesAfter(AliasesAfter(drawRes, r, b), q, a)
  {
  }

  lemma UpdatesCommute<K, V>(m: map<K, V>, a: K, x: V, b: K, y: V, c: K, z: V, d: K, u: V)
    requires {a, b} !! {c, d}
    ensures m[a := x][b := y][c := z][d := u] == m[c := z][d := u][a := x][b := y]
  {
  }

  lemma UpdateCommutes<K, V>(m: map<K, V>, a: K, x: V, b: K, y: V)
    requires a != b
    ensures m[a := x][b := y] == m[b := y][a := x]
  {
  }

  /** What the second of two swaps draws does not depend on the first. */
  lemma SwapDrawsSame(s: State, v: XID, a: int, w: XID, b: int)
    requires Core(s) && v != w && CanSwap(s, w)
    ensures var t := Swapped(s, v, a);
            && CanSwap(t, w) && t.recs[w] == s.recs[w] && t.windows[w] == s.windows[w]
            && Shown(t, w) == Shown(s, w) && SavedFront(t, w, b) == SavedFront(s, w, b)
            && ClearedBack(t, w, b) == ClearedBack(s, w, b)
  {
    SwapElsewhere(s, v, w, a);
    var t := Swapped(s, v, a);
    assert ViewOf(t, w).back == ViewOf(s, w).back && ViewOf(t, w).front == ViewOf(s, w).front;
  }

  /** Two windows swapped at once. */
  ghost function PairSwapped(s: State, v: XID, a: int, w: XID, b: int): State
    requires CanSwap(s, v) && CanSwap(s, w)
  {
    var q, r := s.recs[v], s.recs[w];
    s.(windows := s.windows[v := s.windows[v].(contents := Shown(s, v))][w := s.windows[w].(contents := Shown(s, w))],
       pixmaps := s.pixmaps[q.front := SavedFront(s, v, a)][q.back := ClearedBack(s, v, a)]
                           [r.front := SavedFront(s, w, b)][r.back := ClearedBack(s, w, b)],
       recs := s.recs[v := RecordAfter(q, a)][w := RecordAfter(r, b)],
       drawRes := AliasesAfter(AliasesAfter(s.drawRes, q, a), r, b))
  }

  lemma BothSwapped(s: State, v: XID, a: int, w: XID, b: int)
    requires Core(s) && v != w && CanSwap(s, v) && CanSwap(s, w)
    ensures Swapped(Swapped(s, v, a), w, b) == PairSwapped(s, v, a, w, b)
  {
    SwapDrawsSame(s, v, a, w, b);
  }

  lemma PairsDistinct(s: State, v: XID, w: XID)
    requires Core(s) && v != w && CanSwap(s, v) && CanSwap(s, w)
    ensures {s.recs[v].front, s.recs[v].back} !! {s.recs[w].front, s.recs[w].back}
    ensures forall id :: id in s.recs[v].names ==> id !in s.recs[w].names
  {
    assert RecordNamed(s, v) && RecordNamed(s, w) && Apart(s, v, w);
  }

  lemma PairSwappedSymmetric(s: State, v: XID, a: int, w: XID, b: int)
    requires v != w && CanSwap(s, v) && CanSwap(s, w)
    requires {s.recs[v].front, s.recs[v].back} !! {s.recs[w].front, s.recs[w].back}
    requires forall id :: id in s.recs[v].names ==> id !in s.recs[w].names
    ensures PairSwapped(s, v, a, w, b) == PairSwapped(s, w, b, v, a)
  {
    var q, r := s.recs[v], s.recs[w];
    AliasesCommute(s.drawRes, q, a, r, b);
    UpdateCommutes(s.recs, v, RecordAfter(q, a), w, RecordAfter(r, b));
    UpdateCommutes(s.windows, v, s.windows[v].(contents := Shown(s, v)), w, s.windows[w].(contents := Shown(s, w)));
    UpdatesCommute(s.pixmaps, q.front, SavedFront(s, v, a), q.back, ClearedBack(s, v, a),
                   r.front, SavedFront(s, w, b), r.back, ClearedBack(s, w, b));
  }

  /** Swaps of different windows can be made in either order. */
  lemma SwapsCommute(s: State, v: XID, a: int, w: XID, b: int)
    requires Core(s) && v != w
    ensures Swapped(Swapped(s, v, a), w, b) == Swapped(Swapped(s, w, b), v, a)
  {
    SwapElsewhere(s, v, w, a);
    SwapElsewhere(s, w, v, b);
    if CanSwap(s, v) && CanSwap(s, w) {
      BothSwapped(s, v, a, w, b);
      BothSwapped(s, w, b, v, a);
      PairsDistinct(s, v, w);
      PairSwappedSymmetric(s, v, a, w, b);
    }
  }

  predicate OnceEach(list: seq<SwapInfo>) {
    forall i, j :: 0 <= i < j < |list| ==> list[i].window != list[j].window
  }

  /** Moving the first entry of a list to its end changes nothing. */
  lemma {:induction false} SwapFirstLast(s: State, e: SwapInfo, list: seq<SwapInfo>)
    requires Inv(s) && forall x :: x in list ==> x.window != e.window
    ensures SwappedInOrder(s, [e] + list) == SwappedInOrder(s, list + [e])
    decreases |list|
  {
    if list == [] {
      assert [e] + list == list + [e];
    } else {
      var x, rest := list[0], list[1..];
      var t := Swapped(s, x.window, x.action);
      SwappedInv(s, x.window, x.action);
      SwapFirstLast(t, e, rest);
      SwapsCommute(s, e.window, e.action, x.window, x.action);
      assert ([e] + list)[1..] == list && ([e] + rest)[1..] == rest;
      assert (list + [e])[1..] == rest + [e];
    }
  }

  /** The worklist step: after the first entry is swapped and the last put in its place, swapping what
      remains gives what swapping the whole list in order would. */
  lemma WorklistStep(s: State, list: seq<SwapInfo>)
    requires Inv(s) && OnceEach(list) && |list| > 1
    ensures SwappedInOrder(Swapped(s, list[0].window, list[0].action), [list[|list| - 1]] + list[1..|list| - 1]) ==
            SwappedInOrder(s, list)
  {
    var last := list[|list| - 1];
    var t := Swapped(s, list[0].window, list[0].action);
    SwappedInv(s, list[0].window, list[0].action);
    SwapFirstLast(t, last, list[1..|list| - 1]);
    assert list[1..|list| - 1] + [last] == list[1..];
  }

  lemma {:induction false} UnlistedKept(s: State, list: seq<SwapInfo>, w: XID)
    requires Inv(s) && CanSwap(s, w) && forall x :: x in list ==> x.window != w
    ensures CanSwap(SwappedInOrder(s, list), w) && ViewOf(SwappedInOrder(s, list), w) == ViewOf(s, w)
    decreases |list|
  {
    if list != [] {
      SwappedInv(s, list[0].window, list[0].action);
      SwapElsewhere(s, list[0].window, w, list[0].action);
      UnlistedKept(Swapped(s, list[0].window, list[0].action), list[1..], w);
    }
  }

  /** Each listed window is swapped exactly once, with its own action, from what it was before the
      request; UnlistedKept says the others are left as they were. */
  lemma {:induction false} ListedSwappedOnce(s: State, list: seq<SwapInfo>, i: nat)
    requires Inv(s) && OnceEach(list) && i < |list| && CanSwap(s, list[i].window)
    ensures var w, t := list[i].window, SwappedInOrder(s, list);
            && CanSwap(t, w) && CanSwap(Swapped(s, w, list[i].action), w)
            && ViewOf(t, w) == ViewOf(Swapped(s, w, list[i].action), w)
    decreases |list|
  {
    var e, w, a := list[0], list[i].window, list[i].action;
    SwappedInv(s, e.window, e.action);
    SwappedInv(s, w, a);
    if i == 0 {
      UnlistedKept(Swapped(s, w, a), list[1..], w);
    } else {
      SwapElsewhere(s, e.window, w, e.action);
      ListedSwappedOnce(Swapped(s, e.window, e.action), list[1..], i - 1);
      SwapsCommute(s, e.window, e.action, w, a);
      SwapElsewhere(Swapped(s, w, a), e.window, w, e.action);
    }
  }

  /** What a list that passes the checks of a swap request is. */
  ghost predicate AllSwappable(s: State, list: seq<SwapInfo>) {
    OnceEach(list) && forall i :: 0 <= i < |list| ==> list[i].window in s.recs
  }

  lemma {:induction false} CheckedList(s: State, list: seq<SwapInfo>, from: nat)
    requires from <= |list| && FirstError(s, list, from) == Success
    ensures forall i, j :: from <= i < j < |list| ==> list[i].window != list[j].window
    ensures forall i :: from <= i < |list| ==> list[i].window in s.recs && ValidAction(list[i].action)
    decreases |list| - from
  {
    if from < |list| {
      CheckedList(s, list, from + 1);
    }
  }

  /** The worklist after its first step. */
  function Worklist(list: seq<SwapInfo>): seq<SwapInfo>
    requires list != []
  {
    if |list| == 1 then [] else [list[|list| - 1]] + list[1..|list| - 1]
  }

  lemma AfterFirst(s: State, list: seq<SwapInfo>)
    requires Inv(s) && list != [] && AllSwappable(s, list)
    ensures var t := Swapped(s, list[0].window, list[0].action);
            && Inv(t) && AllSwappable(t, Worklist(list))
            && SwappedInOrder(t, Worklist(list)) == SwappedInOrder(s, list)
  {
    SwappedInv(s, list[0].window, list[0].action);
    SwapKeepsRecords(s, list[0].window, list[0].action);
    WorklistEntries(list);
    if |list| > 1 {
      WorklistStep(s, list);
    } else {
      assert list[1..] == [];
    }
  }

  lemma WorklistEntries(list: seq<SwapInfo>)
    requires list != [] && OnceEach(list)
    ensures OnceEach(Worklist(list)) && forall x :: x in Worklist(list) ==> x in list
  {
  }

  lemma SwapKeepsRecords(s: State, w: XID, action: int)
    ensures Swapped(s, w, action).recs.Keys == s.recs.Keys
  {
  }
}
