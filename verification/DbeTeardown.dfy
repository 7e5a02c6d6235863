/** Freeing resources one at a time adds up to freeing a set of names. */
module DbeTeardown {
  import opened Options
  import opened Images
  import opened Resources
  import opened DbeState
  import opened DbeRequests
  import opened DbeInvariant
  import opened WindowPrivates

  lemma UnlistedTail(names: seq<XID>, id: XID)
    requires id in names && names[0] != id
    ensures id in names[1..] && Unlisted(names, id) == [names[0]] + Unlisted(names[1..], id)
  {
    var i := IndexOf(names[1..], id);
    assert IndexOf(names, id) == i + 1;
    assert names[..i + 1] == [names[0]] + names[1..][..i];
  }

  lemma {:induction false} UnlistedIsWithout(names: seq<XID>, id: XID)
    requires Distinct(names) && id in names
    ensures Unlisted(names, id) == Without(names, {id})
    ensures Unlisted(names, id) == [] <==> AllIn(names, {id})
  {
    WithoutMembers(names, {id});
    if names[0] == id {
      WithoutNone(names[1..], {id});
    } else {
      UnlistedTail(names, id);
      UnlistedIsWithout(names[1..], id);
    }
  }

  ghost function Renamed(s: State, w: XID, names: seq<XID>): State
    requires w in s.recs
  {
    s.(recs := s.recs[w := s.recs[w].(names := names)])
  }

  /** The record of w is given up with its pixmaps. */
  ghost function Retired(s: State, w: XID): State
    requires w in s.recs
  {
    var r := s.recs[w];
    s.(recs := s.recs - {w}, pixmaps := s.pixmaps - {r.front, r.back},
       destroyed := s.destroyed + multiset{r.front, r.back})
  }

  /** DbeWindowPrivDelete: one name less, and with the last the record. */
  ghost function NameRemoved(s: State, w: XID, id: XID): State
    requires w in s.recs && id in s.recs[w].names
  {
    var rest := Unlisted(s.recs[w].names, id);
    var t := Renamed(s, w, rest);
    if rest == [] then Retired(t, w) else t
  }

  lemma LastNameDropped(s: State, w: XID, id: XID)
    requires Core(s) && id in s.privRes && s.privRes[id] == w && w in s.recs && AllIn(s.recs[w].names, {id})
    ensures Retired(s.(privRes := s.privRes - {id}), w) == DropPrivs(s, {id})
  {
    OthersKeepNames(s, w, id);
    DeadPair(s, w, id);
    assert DropPrivs(s, {id}).recs == s.recs - {w};
  }

  lemma OneNameDropped(s: State, w: XID, id: XID)
    requires NamesOk(s) && id in s.privRes && s.privRes[id] == w && w in s.recs && !AllIn(s.recs[w].names, {id})
    ensures Renamed(s.(privRes := s.privRes - {id}), w, Without(s.recs[w].names, {id})) == DropPrivs(s, {id})
  {
    OthersKeepNames(s, w, id);
    NonePairDead(s, w, id);
    var t := DropPrivs(s, {id});
    assert t.recs == s.recs[w := s.recs[w].(names := Without(s.recs[w].names, {id}))];
  }

  /** Running the delete function of a name, its entry being gone, drops that name. */
  lemma NameRemovedIsDrop(s: State, w: XID, id: XID)
    requires Core(s) && id in s.privRes && s.privRes[id] == w
    ensures w in s.recs && id in s.recs[w].names
    ensures NameRemoved(s.(privRes := s.privRes - {id}), w, id) == DropPrivs(s, {id})
  {
    assert NameOwned(s, id) && RecordNamed(s, w);
    UnlistedIsWithout(s.recs[w].names, id);
    if AllIn(s.recs[w].names, {id}) {
      LastNameDropped(s, w, id);
      RetiredUnnamed(s.(privRes := s.privRes - {id}), w);
    } else {
      OneNameDropped(s, w, id);
    }
  }

  lemma RetiredUnnamed(s: State, w: XID)
    requires w in s.recs
    ensures Retired(Renamed(s, w, []), w) == Retired(s, w)
  {
    assert s.recs[w := s.recs[w].(names := [])] - {w} == s.recs - {w};
  }

  lemma OthersKeepNames(s: State, w: XID, id: XID)
    requires NamesOk(s) && id in s.privRes && s.privRes[id] == w
    ensures forall v :: v in s.recs && v != w ==>
              !AllIn(s.recs[v].names, {id}) && Without(s.recs[v].names, {id}) == s.recs[v].names
  {
    forall v | v in s.recs && v != w
      ensures !AllIn(s.recs[v].names, {id}) && Without(s.recs[v].names, {id}) == s.recs[v].names
    {
      assert RecordNamed(s, v);
      assert s.recs[v].names[0] in s.recs[v].names;
      WithoutNone(s.recs[v].names, {id});
    }
  }

  lemma DeadPair(s: State, w: XID, id: XID)
    requires Core(s) && id in s.privRes && s.privRes[id] == w && w in s.recs && AllIn(s.recs[w].names, {id})
    ensures DeadPixmaps(s, {id}) == {s.recs[w].front, s.recs[w].back}
    ensures multiset(DeadPixmaps(s, {id})) == multiset{s.recs[w].front, s.recs[w].back}
  {
    assert PairLive(s, w);
    OthersKeepNames(s, w, id);
    assert Owns(s.recs[w], s.recs[w].front) && Owns(s.recs[w], s.recs[w].back);
  }

  lemma NonePairDead(s: State, w: XID, id: XID)
    requires NamesOk(s) && id in s.privRes && s.privRes[id] == w && w in s.recs && !AllIn(s.recs[w].names, {id})
    ensures DeadPixmaps(s, {id}) == {}
  {
    OthersKeepNames(s, w, id);
  }

  /** Freeing an identifier that is no name does nothing to the records. */
  lemma DropAbsent(s: State, id: XID)
    requires NamesOk(s) && id !in s.privRes
    ensures DropPrivs(s, {id}) == s
  {
    forall w | w in s.recs
      ensures !AllIn(s.recs[w].names, {id}) && Without(s.recs[w].names, {id}) == s.recs[w].names
    {
      assert RecordNamed(s, w);
      assert s.recs[w].names[0] in s.recs[w].names;
      WithoutNone(s.recs[w].names, {id});
    }
    var t := DropPrivs(s, {id});
    assert t.recs == s.recs;
    assert DeadPixmaps(s, {id}) == {};
  }

  /** How far the resources of a dying client have been freed: record entries, drawable entries, windows. */
  datatype Freed = Freed(privs: set<XID>, drawables: set<XID>, windows: set<XID>) {
    /** Every freed window has lost all its names, and a name lost only by half is the client's own. */
    ghost predicate Fits(s: State, client: Client, subtree: set<XID>) {
      && privs <= Doomed(s, client, subtree) && drawables <= Doomed(s, client, subtree)
      && windows <= DoomedWindows(s, client, subtree)
      && (forall w :: w in windows ==> NamesOf(s, w) <= privs)
      && (forall id :: id in privs && id !in drawables ==> ClientOf(id) == client)
    }

    ghost predicate Before(g: Freed) {
      privs <= g.privs && drawables <= g.drawables && windows <= g.windows && this != g
    }
  }

  ghost function Partly(s: State, f: Freed): State {
    DropDrawables(DropPrivs(s, f.privs), f.drawables).(windows := s.windows - f.windows)
  }

  lemma PrivsFurther(s: State, f: Freed, more: set<XID>)
    ensures DropPrivs(Partly(s, f), more) == Partly(s, f.(privs := f.privs + more))
  {
    DropPrivsIgnoresDrawables(DropPrivs(s, f.privs), f.drawables, more);
    DropPrivsTwice(s, f.privs, more);
    DropPrivsIgnoresWindows(DropDrawables(DropPrivs(s, f.privs), f.drawables), s.windows - f.windows, more);
  }

  lemma DropPrivsIgnoresWindows(s: State, windows: map<XID, Window>, gone: set<XID>)
    ensures DropPrivs(s.(windows := windows), gone) == DropPrivs(s, gone).(windows := windows)
  {
    var t := s.(windows := windows);
    forall p ensures Dead(t, gone, p) == Dead(s, gone, p) {}
    assert DeadPixmaps(t, gone) == DeadPixmaps(s, gone);
    assert DropPrivs(t, gone).recs == DropPrivs(s, gone).recs;
  }

  lemma DrawablesFurther(s: State, f: Freed, more: set<XID>)
    ensures DropDrawables(Partly(s, f), more) == Partly(s, f.(drawables := f.drawables + more))
  {
    assert s.drawRes - f.drawables - more == s.drawRes - (f.drawables + more);
  }

  /** What the delete function of a name may rely on. */
  lemma Deletable(s: State, id: XID)
    requires Core(s) && id in s.privRes
    ensures var w := s.privRes[id];
            && w in s.recs && id in s.recs[w].names
            && s.recs[w].front != s.recs[w].back && {s.recs[w].front, s.recs[w].back} <= s.pixmaps.Keys
            && (Unlisted(s.recs[w].names, id) == [] ==> forall n :: n in s.privRes && n != id ==> s.privRes[n] != w)
            && NameRemoved(s.(privRes := s.privRes - {id}), w, id) == DropPrivs(s, {id})
  {
    var w := s.privRes[id];
    assert NameOwned(s, id) && RecordNamed(s, w) && PairLive(s, w);
    NameRemovedIsDrop(s, w, id);
    UnlistedIsWithout(s.recs[w].names, id);
    forall n | n in s.privRes && s.privRes[n] == w ensures n in s.recs[w].names { assert NameOwned(s, n); }
  }

  ghost function Left(s: State, client: Client, subtree: set<XID>, f: Freed): nat {
    |Doomed(s, client, subtree) - f.privs| + |Doomed(s, client, subtree) - f.drawables|
    + |DoomedWindows(s, client, subtree) - f.windows|
  }

  lemma Shrinks(a: set<XID>, b: set<XID>, c: set<XID>)
    requires b <= c <= a
    ensures |a - c| <= |a - b| && (b != c ==> |a - c| < |a - b|)
  {
    assert a - b == (a - c) + (c - b);
    if b != c {
      var x :| x in c - b;
      assert |c - b| > 0;
    }
  }

  lemma LessLeft(s: State, client: Client, subtree: set<XID>, f: Freed, g: Freed)
    requires g.Fits(s, client, subtree) && f.Before(g)
    ensures Left(s, client, subtree, g) < Left(s, client, subtree, f)
  {
    Shrinks(Doomed(s, client, subtree), f.privs, g.privs);
    Shrinks(Doomed(s, client, subtree), f.drawables, g.drawables);
    Shrinks(DoomedWindows(s, client, subtree), f.windows, g.windows);
  }

  lemma NothingFreed(s: State)
    requires NamesOk(s)
    ensures Partly(s, Freed({}, {}, {})) == s
  {
    NoneDropped(s);
  }

  lemma PartlyCore(s: State, client: Client, subtree: set<XID>, f: Freed)
    requires Core(s) && f.Fits(s, client, subtree)
    ensures Core(Partly(s, f))
  {
    DropPrivsCore(s, f.privs);
    CoreIgnoresDrawables(DropPrivs(s, f.privs), f.drawables);
    var u, t := DropDrawables(DropPrivs(s, f.privs), f.drawables), Partly(s, f);
    assert forall w :: w in f.windows && w in s.recs ==> AllIn(s.recs[w].names, f.privs);
    assert forall w :: w in u.recs ==> w in s.recs && w !in f.windows;
    SameNamesOk(u, t);
    SamePixmapsOk(u, t);
  }

  lemma PrivFreed(s: State, client: Client, subtree: set<XID>, f: Freed, id: XID)
    requires f.Fits(s, client, subtree) && id in Partly(s, f).privRes && ClientOf(id) == client
    ensures var g := f.(privs := f.privs + {id});
            g.Fits(s, client, subtree) && f.Before(g) && DropPrivs(Partly(s, f), {id}) == Partly(s, g)
  {
    PrivsFurther(s, f, {id});
  }

  lemma DrawableFreed(s: State, client: Client, subtree: set<XID>, f: Freed, id: XID)
    requires f.Fits(s, client, subtree) && id in Partly(s, f).drawRes && ClientOf(id) == client
    ensures var g := f.(drawables := f.drawables + {id});
            g.Fits(s, client, subtree) && f.Before(g) && DropDrawables(Partly(s, f), {id}) == Partly(s, g)
  {
    DrawablesFurther(s, f, {id});
  }

  ghost function WithWindow(s: State, f: Freed, w: XID): Freed {
    var names := NamesOf(Partly(s, f), w);
    Freed(f.privs + names, f.drawables + names, f.windows + {w})
  }

  lemma WindowFreedFits(s: State, client: Client, subtree: set<XID>, f: Freed, w: XID)
    requires Core(s) && f.Fits(s, client, subtree)
    requires w in Partly(s, f).windows && (ClientOf(w) == client || w in subtree)
    ensures WithWindow(s, f, w).Fits(s, client, subtree) && f.Before(WithWindow(s, f, w))
  {
    if w in s.recs {
      WithoutMembers(s.recs[w].names, f.privs);
      assert RecordNamed(s, w);
    }
  }

  lemma WindowFreed(s: State, client: Client, subtree: set<XID>, f: Freed, w: XID)
    requires Core(s) && f.Fits(s, client, subtree)
    requires w in Partly(s, f).windows && (ClientOf(w) == client || w in subtree)
    ensures WithWindow(s, f, w).Fits(s, client, subtree) && f.Before(WithWindow(s, f, w))
    ensures WindowDestroyed(Partly(s, f), w) == Partly(s, WithWindow(s, f, w))
  {
    WindowFreedFits(s, client, subtree, f, w);
    var names := NamesOf(Partly(s, f), w);
    PrivsFurther(s, f, names);
    DrawablesFurther(s, f.(privs := f.privs + names), names);
    assert s.windows - f.windows - {w} == s.windows - (f.windows + {w});
  }

  /** When nothing of the client is left to free, exactly its names and those of its windows are gone. */
  lemma AllFreed(s: State, client: Client, subtree: set<XID>, f: Freed)
    requires Inv(s) && f.Fits(s, client, subtree)
    requires forall id :: id in Partly(s, f).privRes ==> ClientOf(id) != client
    requires forall id :: id in Partly(s, f).drawRes ==> ClientOf(id) != client
    requires forall w :: w in Partly(s, f).windows ==> ClientOf(w) != client && w !in subtree
    ensures Partly(s, f) == ClientGone(s, client, subtree)
  {
    var t, gone := Partly(s, f), Doomed(s, client, subtree);
    forall w | w in DoomedWindows(s, client, subtree) ensures w in f.windows {
      assert w !in f.windows ==> w in t.windows;
    }
    forall id | id in gone ensures id in f.privs && id in f.drawables {
      assert id !in f.privs ==> id in t.privRes;
      assert id !in f.drawables ==> id in t.drawRes;
      if ClientOf(id) != client {
        assert NameOwned(s, id);
        assert id in NamesOf(s, s.privRes[id]);
      }
    }
    assert f == Freed(gone, gone, DoomedWindows(s, client, subtree));
  }

  lemma DropNamesCore(s: State, gone: set<XID>)
    requires Core(s)
    ensures Core(DropNames(s, gone))
  {
    DropPrivsCore(s, gone);
    CoreIgnoresDrawables(DropPrivs(s, gone), gone);
  }

  lemma NoneDropped(s: State)
    requires NamesOk(s)
    ensures DropNames(s, {}) == s
  {
    var t := DropPrivs(s, {});
    forall w | w in s.recs ensures !AllIn(s.recs[w].names, {}) && Without(s.recs[w].names, {}) == s.recs[w].names {
      assert RecordNamed(s, w);
      assert s.recs[w].names[0] in s.recs[w].names;
      WithoutNone(s.recs[w].names, {});
    }
    assert t.recs == s.recs;
    assert DeadPixmaps(s, {}) == {};
  }

  lemma DropOneMore(s: State, w: XID, done: set<XID>, id: XID)
    requires id in NamesOf(DropNames(s, done), w)
    ensures id in NamesOf(s, w) && id !in done
    ensures DropNames(DropNames(s, done), {id}) == DropNames(s, done + {id})
  {
    WithoutMembers(s.recs[w].names, done);
    DropNamesTwice(s, done, {id});
  }

  /** Once the record of w is gone, all its names have been dropped. */
  lemma AllDropped(s: State, w: XID, done: set<XID>)
    requires done <= NamesOf(s, w) && w !in DropNames(s, done).recs
    ensures done == NamesOf(s, w)
  {
  }

  /** A pixmap made and destroyed in vain leaves the names as they were. */
  lemma RefusedNames(s: State, w: XID)
    requires Core(s) && w in s.recs
    ensures Core(PixmapWasted(s)) && NamesOf(PixmapWasted(s), w) == NamesOf(s, w) == NameSet(s.recs[w])
  {
    PixmapWastedInv(s);
  }
}
