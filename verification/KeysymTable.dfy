/** Keysyms to Unicode and back: two binary searches, one over the table sorted by keysym, one over a
    copy of it sorted by code point when it is first needed. */
module KeysymTable {
  /** unsigned short keysym and ucs */
  datatype CodePair = CodePair(keysym: nat, ucs: nat)

  predicate Latin1(c: int) {
    0x20 <= c <= 0x7e || 0xa0 <= c <= 0xff
  }

  /** Bits 24 to 31, in two's complement: x & 0xff000000, shifted down. */
  function HighByte(x: int): int {
    x / 0x100_0000 % 256
  }

  /** x | 0x01000000 as a 32-bit int: the bit is set in the high byte, whose top bit is the sign. */
  function Direct(x: int): int {
    var high := if HighByte(x) % 2 == 1 then HighByte(x) else HighByte(x) + 1;
    (if high < 128 then high else high - 256) * 0x100_0000 + x % 0x100_0000
  }

  /** The table as it must be: 16-bit entries, strictly increasing keysyms, none of them a Latin-1 one. */
  ghost predicate IsTable(table: seq<CodePair>) {
    && (forall i :: 0 <= i < |table| ==> table[i].keysym < 0x1_0000 && table[i].ucs < 0x1_0000)
    && (forall i :: 0 <= i < |table| ==> !Latin1(table[i].keysym))
    && (forall i, j :: 0 <= i < j < |table| ==> table[i].keysym < table[j].keysym)
  }

  /** What qsort with reverse_compare may leave: the same pairs by increasing code point, equal ones in any order. */
  ghost predicate Resorted(table: seq<CodePair>, sorted: seq<CodePair>) {
    && multiset(sorted) == multiset(table)
    && forall i, j :: 0 <= i < j < |sorted| ==> sorted[i].ucs <= sorted[j].ucs
  }

  /** ucs is what a keysym stands for: itself if Latin-1, its low 24 bits if directly encoded, else the
      entry of the table, or -1 when there is none. */
  ghost predicate IsUcsOf(table: seq<CodePair>, keysym: int, ucs: int) {
    if Latin1(keysym) then ucs == keysym
    else if HighByte(keysym) == 1 then ucs == keysym % 0x100_0000
    else if exists pair :: pair in table && pair.keysym == keysym then
      exists pair :: pair in table && pair.keysym == keysym && pair.ucs == ucs
    else ucs == -1
  }

  /** keysym is one of those for a code point: itself if Latin-1, else one of its entries of the table, or
      its direct encoding when there is none. */
  ghost predicate IsKeysymOf(table: seq<CodePair>, ucs: int, keysym: int) {
    if Latin1(ucs) then keysym == ucs
    else if exists pair :: pair in table && pair.ucs == ucs then
      exists pair :: pair in table && pair.ucs == ucs && pair.keysym == keysym
    else keysym == Direct(ucs)
  }

  class Keysyms {
    const keysymtab: seq<CodePair>
    /** The lazily made copy; empty until then, as the table itself is not. */
    var reverse: seq<CodePair>

    ghost predicate Valid()
      reads this
    {
      IsTable(keysymtab) && (reverse == [] || Resorted(keysymtab, reverse))
    }

    constructor (table: seq<CodePair>)
      requires IsTable(table)
      ensures Valid() && keysymtab == table && reverse == []
    {
      keysymtab := table;
      reverse := [];
    }

    method Keysym2Ucs(keysym: int) returns (ucs: int)
      requires Valid()
      ensures IsUcsOf(keysymtab, keysym, ucs)
    {
      var min, max := 0, |keysymtab| - 1;
      if Latin1(keysym) {
        return keysym;
      }
      if HighByte(keysym) == 1 {
        return keysym % 0x100_0000;
      }
      while max >= min
        invariant 0 <= min <= max + 1 <= |keysymtab|
        invariant forall i :: 0 <= i < min ==> keysymtab[i].keysym < keysym
        invariant forall i :: max < i < |keysymtab| ==> keysym < keysymtab[i].keysym
        decreases max - min
      {
        var mid := (min + max) / 2;
        if keysymtab[mid].keysym < keysym {
          min := mid + 1;
        } else if keysymtab[mid].keysym > keysym {
          max := mid - 1;
        } else {
          assert keysymtab[mid] in keysymtab;
          return keysymtab[mid].ucs;
        }
      }
      return -1;
    }

    /** sorted is what qsort makes of the copied table, should this be the first call. */
    method Ucs2Keysym(ucs: int, sorted: seq<CodePair>) returns (keysym: int)
      requires Valid() && Resorted(keysymtab, sorted)
      modifies this
      ensures Valid() && IsKeysymOf(keysymtab, ucs, keysym) && keysym == KeysymFrom(reverse, ucs)
      ensures reverse == if old(reverse) == [] then sorted else old(reverse)
    {
      if reverse == [] {
        reverse := sorted;
      }
      keysym := LookUp(ucs);
      KeysymFromIs(keysymtab, reverse, ucs);
    }

    method LookUp(ucs: int) returns (keysym: int)
      requires Resorted(keysymtab, reverse)
      ensures keysym == KeysymFrom(reverse, ucs)
    {
      if Latin1(ucs) {
        return ucs;
      }
      SamePairs(keysymtab, reverse);
      var mid := SearchReverse(ucs);
      keysym := if mid >= 0 then reverse[mid].keysym else Direct(ucs);
    }

    /** The binary search of ucs2keysym; -1 where it finds nothing. */
    method SearchReverse(ucs: int) returns (mid: int)
      requires |reverse| == |keysymtab|
      ensures mid == Found(reverse, ucs, 0, |reverse| - 1)
    {
      var min, max := 0, |keysymtab| - 1;
      while max >= min
        invariant 0 <= min <= max + 1 <= |reverse|
        invariant Found(reverse, ucs, 0, |reverse| - 1) == Found(reverse, ucs, min, max)
        decreases max - min
      {
        mid := (min + max) / 2;
        if reverse[mid].ucs < ucs {
          min := mid + 1;
        } else if reverse[mid].ucs > ucs {
          max := mid - 1;
        } else {
          return mid;
        }
      }
      return -1;
    }
  }

  lemma SamePairs(table: seq<CodePair>, sorted: seq<CodePair>)
    requires Resorted(table, sorted)
    ensures |sorted| == |table|
    ensures forall pair :: pair in sorted <==> pair in table
  {
    assert |multiset(sorted)| == |multiset(table)|;
    forall pair ensures pair in sorted <==> pair in table {
      assert pair in sorted <==> pair in multiset(sorted);
    }
  }

  /** Setting the bit keeps the low 24 bits and leaves the range of 16-bit keysyms; it changes no high byte but
      an even one. */
  lemma DirectParts(x: int)
    ensures Direct(x) % 0x100_0000 == x % 0x100_0000 && (Direct(x) < 0 || Direct(x) >= 0x1_0000)
    ensures HighByte(Direct(x)) == if HighByte(x) % 2 == 1 then HighByte(x) else HighByte(x) + 1
  {
    var high := if HighByte(x) % 2 == 1 then HighByte(x) else HighByte(x) + 1;
    Quotient(Direct(x), if high < 128 then high else high - 256, x % 0x100_0000);
  }

  lemma Quotient(y: int, b: int, r: int)
    requires y == b * 0x100_0000 + r && 0 <= r < 0x100_0000
    ensures y / 0x100_0000 == b && y % 0x100_0000 == r
  {
  }

  /** What a 32-bit keysym stands for: a printable Latin-1 character for itself, one from 0x1000000 to 0x1ffffff for the
      code point so far above that, one of the table for its entry, and any other for none. */
  lemma UcsExactly(table: seq<CodePair>, keysym: int, ucs: int)
    requires IsTable(table) && -0x8000_0000 <= keysym < 0x8000_0000 && IsUcsOf(table, keysym, ucs)
    ensures if 0x20 <= keysym <= 0x7e || 0xa0 <= keysym <= 0xff then ucs == keysym
            else if 0x100_0000 <= keysym <= 0x1ff_ffff then ucs == keysym - 0x100_0000
            else if exists pair :: pair in table && pair.keysym == keysym then CodePair(keysym, ucs) in table
            else ucs == -1
  {
    if pair :| pair in table && pair.keysym == keysym && pair.ucs == ucs && !Latin1(keysym) {
      OneEntry(table, pair);
      assert pair == CodePair(keysym, ucs);
    }
  }

  /** And the keysym of a code point: itself for a printable Latin-1 character, else one of the table that has it, else
      the one 0x1000000 above. */
  lemma KeysymExactly(table: seq<CodePair>, ucs: int, keysym: int)
    requires IsTable(table) && 0 <= ucs < 0x100_0000 && IsKeysymOf(table, ucs, keysym)
    ensures if 0x20 <= ucs <= 0x7e || 0xa0 <= ucs <= 0xff then keysym == ucs
            else if exists pair :: pair in table && pair.ucs == ucs then CodePair(keysym, ucs) in table
            else keysym == ucs + 0x100_0000
  {
    if pair :| pair in table && pair.ucs == ucs && pair.keysym == keysym && !Latin1(ucs) {
      assert pair == CodePair(keysym, ucs);
    }
  }

  /** Setting bit 24 adds its value to a number that lacks it, and what is left of 32 bits is an int. */
  lemma DirectExactly(x: int)
    ensures -0x8000_0000 <= Direct(x) < 0x8000_0000
    ensures var clear := x / 0x100_0000 % 2 == 0;
            Direct(x) % 0x1_0000_0000 == (if clear then x + 0x100_0000 else x) % 0x1_0000_0000
  {
    var h, low := x / 0x100_0000, x % 0x100_0000;
    var high := HighByte(x);
    var odd := if high % 2 == 1 then high else high + 1;
    SameParity(h);
    Remainder(if h % 2 == 0 then x + 0x100_0000 else x, h / 256, odd * 0x100_0000 + low);
    Remainder(Direct(x), if odd < 128 then 0 else -1, odd * 0x100_0000 + low);
  }

  lemma SameParity(h: int)
    ensures h % 2 == h % 256 % 2
  {
    EvenPart(h / 256, h % 256);
  }

  lemma EvenPart(q: int, r: int)
    ensures (256 * q + r) % 2 == r % 2
  {
  }

  lemma Remainder(y: int, q: int, r: int)
    requires y == q * 0x1_0000_0000 + r && 0 <= r < 0x1_0000_0000
    ensures y % 0x1_0000_0000 == r
  {
  }

  /** For every table and every order qsort may give equal code points, a 64-bit code point comes back through
      its keysym exactly when it has 24 bits, or is -1, the value for none. */
  lemma RoundTrip(table: seq<CodePair>, u: int, keysym: int, back: int)
    requires IsTable(table) && -0x8000_0000_0000_0000 <= u < 0x8000_0000_0000_0000
    requires IsKeysymOf(table, u, keysym) && IsUcsOf(table, keysym, back)
    ensures back == u <==> 0 <= u < 0x100_0000 || u == -1
  {
    if pair :| pair in table && pair.ucs == u && pair.keysym == keysym && !Latin1(u) {
      OneEntry(table, pair);
    } else {
      DirectParts(u);
    }
  }

  // ---------------------------------------------------------------- from a keysym and back

  /** Where the search ends in the sorted copy, -1 for nowhere. */
  function Found(sorted: seq<CodePair>, ucs: int, min: int, max: int): (at: int)
    requires 0 <= min <= max + 1 <= |sorted|
    ensures at == -1 || (min <= at <= max && sorted[at].ucs == ucs)
    decreases max - min
  {
    if max < min then -1 else
      var mid := (min + max) / 2;
      if sorted[mid].ucs < ucs then Found(sorted, ucs, mid + 1, max)
      else if sorted[mid].ucs > ucs then Found(sorted, ucs, min, mid - 1)
      else mid
  }

  /** The keysym ucs2keysym gives when the copy was sorted this way. */
  function KeysymFrom(sorted: seq<CodePair>, ucs: int): int {
    if Latin1(ucs) then ucs else
      var at := Found(sorted, ucs, 0, |sorted| - 1);
      if at >= 0 then sorted[at].keysym else Direct(ucs)
  }

  lemma {:induction false} FoundWhenThere(sorted: seq<CodePair>, ucs: int, min: int, max: int, i: int)
    requires 0 <= min <= i <= max < |sorted| && sorted[i].ucs == ucs
    requires forall j, k :: 0 <= j < k < |sorted| ==> sorted[j].ucs <= sorted[k].ucs
    ensures Found(sorted, ucs, min, max) >= 0
    decreases max - min
  {
    var mid := (min + max) / 2;
    if sorted[mid].ucs < ucs {
      FoundWhenThere(sorted, ucs, mid + 1, max, i);
    } else if sorted[mid].ucs > ucs {
      FoundWhenThere(sorted, ucs, min, mid - 1, i);
    }
  }

  lemma {:induction false} SameFound(a: seq<CodePair>, b: seq<CodePair>, ucs: int, min: int, max: int)
    requires |a| == |b| && forall i :: 0 <= i < |a| ==> a[i].ucs == b[i].ucs
    requires 0 <= min <= max + 1 <= |a|
    ensures Found(a, ucs, min, max) == Found(b, ucs, min, max)
    decreases max - min
  {
    if min <= max {
      var mid := (min + max) / 2;
      if a[mid].ucs < ucs {
        SameFound(a, b, ucs, mid + 1, max);
      } else if a[mid].ucs > ucs {
        SameFound(a, b, ucs, min, mid - 1);
      }
    }
  }

  /** Whatever entry a code point has, some order qsort may leave leads to it. */
  lemma Attained(table: seq<CodePair>, sorted: seq<CodePair>, pair: CodePair) returns (other: seq<CodePair>)
    requires Resorted(table, sorted) && pair in table && !Latin1(pair.ucs)
    ensures Resorted(table, other) && KeysymFrom(other, pair.ucs) == pair.keysym
  {
    var j := Placed(table, sorted, pair);
    FoundWhenThere(sorted, pair.ucs, 0, |sorted| - 1, j);
    var at := Found(sorted, pair.ucs, 0, |sorted| - 1);
    other := Exchanged(sorted, at, j);
    StillResorted(table, sorted, other);
    SameFound(sorted, other, pair.ucs, 0, |sorted| - 1);
    KeysymAt(other, pair.ucs, at);
  }

  lemma Placed(table: seq<CodePair>, sorted: seq<CodePair>, pair: CodePair) returns (j: nat)
    requires Resorted(table, sorted) && pair in table
    ensures j < |sorted| && sorted[j] == pair
  {
    SamePairs(table, sorted);
    j :| 0 <= j < |sorted| && sorted[j] == pair;
  }

  lemma KeysymAt(sorted: seq<CodePair>, ucs: int, at: nat)
    requires !Latin1(ucs) && Found(sorted, ucs, 0, |sorted| - 1) == at
    ensures at < |sorted| && KeysymFrom(sorted, ucs) == sorted[at].keysym
  {
  }

  lemma StillResorted(table: seq<CodePair>, sorted: seq<CodePair>, other: seq<CodePair>)
    requires Resorted(table, sorted) && |other| == |sorted| && multiset(other) == multiset(sorted)
    requires forall k :: 0 <= k < |sorted| ==> other[k].ucs == sorted[k].ucs
    ensures Resorted(table, other)
  {
  }

  /** Two entries of one code point change places. */
  lemma Exchanged(s: seq<CodePair>, i: nat, j: nat) returns (t: seq<CodePair>)
    requires i < |s| && j < |s| && s[i].ucs == s[j].ucs
    ensures |t| == |s| && t[i] == s[j] && multiset(t) == multiset(s)
    ensures forall k :: 0 <= k < |s| ==> t[k].ucs == s[k].ucs
  {
    t := s[i := s[j]][j := s[i]];
    SwapKeeps(s, i, j);
  }

  lemma SwapKeeps<T>(s: seq<T>, i: nat, j: nat)
    requires i < |s| && j < |s|
    ensures multiset(s[i := s[j]][j := s[i]]) == multiset(s)
  {
    var u := s[i := s[j]];
    Replaced(s, i, s[j]);
    Replaced(u, j, s[i]);
    BackAndForth(multiset(s), s[i], s[j]);
  }

  lemma Replaced<T>(s: seq<T>, i: nat, v: T)
    requires i < |s|
    ensures multiset(s[i := v]) == multiset(s) - multiset{s[i]} + multiset{v}
  {
  }

  lemma BackAndForth<T>(m: multiset<T>, x: T, y: T)
    requires x in m
    ensures m - multiset{x} + multiset{y} - multiset{y} + multiset{x} == m
  {
  }

  lemma KeysymFromIs(table: seq<CodePair>, sorted: seq<CodePair>, ucs: int)
    requires Resorted(table, sorted)
    ensures IsKeysymOf(table, ucs, KeysymFrom(sorted, ucs))
  {
    SamePairs(table, sorted);
    var at := Found(sorted, ucs, 0, |sorted| - 1);
    if at >= 0 {
      assert sorted[at] in sorted;
    } else {
      forall pair | pair in table ensures pair.ucs != ucs {
        var i :| 0 <= i < |sorted| && sorted[i] == pair;
        if pair.ucs == ucs { FoundWhenThere(sorted, ucs, 0, |sorted| - 1, i); }
      }
    }
  }

  /** The keysyms that come back: Latin-1 ones, -1, direct ones of a code point that is neither Latin-1 nor in the
      table, and those of the table whose code point is not Latin-1 and has no other entry. */
  ghost predicate Returns(table: seq<CodePair>, keysym: int) {
    || Latin1(keysym) || keysym == -1
    || (HighByte(keysym) == 1 && !Latin1(keysym % 0x100_0000)
        && forall pair :: pair in table ==> pair.ucs != keysym % 0x100_0000)
    || (exists pair :: pair in table && pair.keysym == keysym && !Latin1(pair.ucs)
          && forall other :: other in table && other.ucs == pair.ucs ==> other == pair)
  }

  /** A 32-bit keysym comes back through its code point, in whatever order qsort leaves equal code points, exactly
      when it is one of those. */
  lemma KeysymRoundTrip(table: seq<CodePair>, sorted: seq<CodePair>, keysym: int, ucs: int)
    requires IsTable(table) && Resorted(table, sorted) && -0x8000_0000 <= keysym < 0x8000_0000
    requires IsUcsOf(table, keysym, ucs)
    ensures (forall order :: Resorted(table, order) ==> KeysymFrom(order, ucs) == keysym) <==> Returns(table, keysym)
  {
    if Latin1(keysym) {
    } else if HighByte(keysym) == 1 {
      DirectReturns(table, sorted, keysym);
    } else if exists pair :: pair in table && pair.keysym == keysym {
      var pair :| pair in table && pair.keysym == keysym && pair.ucs == ucs;
      TableReturns(table, sorted, pair);
    } else {
      forall order | Resorted(table, order) ensures KeysymFrom(order, -1) == -1 {
        KeysymFromIs(table, order, -1);
      }
      assert KeysymFrom(sorted, -1) == -1;
    }
  }

  lemma DirectReturns(table: seq<CodePair>, sorted: seq<CodePair>, keysym: int)
    requires IsTable(table) && Resorted(table, sorted) && HighByte(keysym) == 1
    requires -0x8000_0000 <= keysym < 0x8000_0000
    ensures (forall order :: Resorted(table, order) ==> KeysymFrom(order, keysym % 0x100_0000) == keysym) <==>
            Returns(table, keysym)
  {
    var ucs := keysym % 0x100_0000;
    DirectOf(keysym);
    forall order | Resorted(table, order)
      ensures KeysymFrom(order, ucs) == keysym <==> !Latin1(ucs) && forall pair :: pair in table ==> pair.ucs != ucs
    {
      KeysymFromIs(table, order, ucs);
    }
    assert KeysymFrom(sorted, ucs) == keysym <==> !Latin1(ucs) && forall pair :: pair in table ==> pair.ucs != ucs;
    assert forall pair :: pair in table ==> pair.keysym < 0x1_0000;
  }

  lemma DirectOf(keysym: int)
    requires HighByte(keysym) == 1 && -0x8000_0000 <= keysym < 0x8000_0000
    ensures Direct(keysym % 0x100_0000) == keysym && keysym >= 0x100_0000
  {
  }

  lemma TableReturns(table: seq<CodePair>, sorted: seq<CodePair>, pair: CodePair)
    requires IsTable(table) && Resorted(table, sorted) && pair in table
    ensures (forall order :: Resorted(table, order) ==> KeysymFrom(order, pair.ucs) == pair.keysym) <==>
            Returns(table, pair.keysym)
  {
    OneEntry(table, pair);
    if Latin1(pair.ucs) {
      assert KeysymFrom(sorted, pair.ucs) != pair.keysym;
    } else if other :| other in table && other.ucs == pair.ucs && other != pair {
      var order := Attained(table, sorted, other);
      OneEntry(table, other);
      assert KeysymFrom(order, pair.ucs) != pair.keysym;
    } else {
      forall order | Resorted(table, order) ensures KeysymFrom(order, pair.ucs) == pair.keysym {
        KeysymFromIs(table, order, pair.ucs);
      }
    }
  }

  lemma OneEntry(table: seq<CodePair>, pair: CodePair)
    requires IsTable(table) && pair in table
    ensures HighByte(pair.keysym) == 0 && !Latin1(pair.keysym) && pair.keysym >= 0
    ensures forall other :: other in table && other.keysym == pair.keysym ==> other == pair
  {
    forall other | other in table && other.keysym == pair.keysym ensures other == pair {
      var i :| 0 <= i < |table| && table[i] == pair;
      var j :| 0 <= j < |table| && table[j] == other;
      assert i == j;
    }
  }
}
