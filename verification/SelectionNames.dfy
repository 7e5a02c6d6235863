/** How the namespace extension rewrites the names of selections, and when rewriting can be undone. */
module SelectionNames {
  /** PATH_MAX - 2: what snprintf leaves of a rewritten name. */
  const NAME_MAX := 4094

  function Take(s: string, n: nat): string {
    if |s| <= n then s else s[..n]
  }

  /** The name a namespace's selection goes by in the server. */
  function Mangle(ns: string, name: string): string {
    Take("<" + ns + ">" + name, NAME_MAX)
  }

  predicate Fits(ns: string, name: string) {
    |ns| + |name| + 2 <= NAME_MAX
  }

  function Find(s: string, c: char): (i: nat)
    ensures i <= |s| && (i < |s| ==> s[i] == c)
    ensures forall j :: 0 <= j < |s| && s[j] == c ==> i <= j
  {
    if s == "" || s[0] == c then 0 else
      var i := 1 + Find(s[1..], c);
      assert forall j :: 1 <= j < |s| && s[j] == c ==> s[1..][j - 1] == c;
      i
  }

  function StripNS(name: string): string {
    if name == "" || name[0] != '<' then name else
      var got := Find(name, '>');
      if got == |name| then name else name[got + 1..]
  }

  // ---------------------------------------------------------------- names that begin with themselves

  /** p over and over, n characters of it. */
  function Repeated(p: string, n: nat): (s: string)
    requires p != ""
    ensures |s| == n
    decreases n
  {
    if n <= |p| then p[..n] else p + Repeated(p, n - |p|)
  }

  lemma {:induction false} RepeatedPrefix(p: string, n: nat, m: nat)
    requires p != "" && m <= n
    ensures Repeated(p, n)[..m] == Repeated(p, m)
    decreases n
  {
    if n > |p| {
      if m > |p| {
        RepeatedPrefix(p, n - |p|, m - |p|);
        assert (p + Repeated(p, n - |p|))[..m] == p + Repeated(p, n - |p|)[..m - |p|];
      } else {
        assert (p + Repeated(p, n - |p|))[..m] == p[..m];
      }
    } else {
      assert p[..n][..m] == p[..m];
    }
  }

  /** The only text left the same by putting p before it and cutting at n is p over and over. */
  lemma {:induction false} SelfPrefix(p: string, s: string, n: nat)
    requires p != ""
    ensures s == Take(p + s, n) <==> s == Repeated(p, n)
    decreases n
  {
    if s == Take(p + s, n) {
      SelfRepeated(p, s, n);
    }
    if s == Repeated(p, n) {
      RepeatedPrefix(p, |p| + n, n);
      if n == 0 {
        assert s == "" && (p + s)[..0] == "";
      } else {
        assert Repeated(p, |p| + n) == p + s;
      }
    }
  }

  lemma {:induction false} SelfRepeated(p: string, s: string, n: nat)
    requires p != "" && s == Take(p + s, n)
    ensures s == Repeated(p, n)
    decreases n
  {
    assert |p + s| > |s|;
    assert |s| == n && s == (p + s)[..n];
    if n <= |p| {
      assert (p + s)[..n] == p[..n];
    } else {
      var m := n - |p|;
      assert (p + s)[..n] == p + s[..m];
      assert s[..m] == (p + s)[..m] == (p + s[..m])[..m];
      SelfRepeated(p, s[..m], m);
    }
  }

  // ---------------------------------------------------------------- stripping

  lemma {:induction false} FindJoin(a: string, b: string, c: char)
    ensures Find(a + b, c) == if Find(a, c) < |a| then Find(a, c) else |a| + Find(b, c)
  {
    if a == "" {
      assert a + b == b;
    } else {
      FindJoin(a[1..], b, c);
      assert (a + b)[1..] == a[1..] + b;
    }
  }

  lemma {:induction false} FindTake(s: string, c: char, n: nat)
    ensures Find(Take(s, n), c) == if Find(s, c) < n then Find(s, c) else n
    decreases |s|
  {
    if s != "" && n > 0 && s[0] != c {
      FindTake(s[1..], c, n - 1);
      assert Take(s, n)[1..] == Take(s[1..], n - 1);
    }
  }

  /** The first '>' of a whole mangled name: one in the namespace, or that behind it. */
  lemma FindMangled(ns: string, name: string)
    ensures Find("<" + (ns + ">" + name), '>') == 1 + Find(ns, '>')
  {
    FindJoin("<", ns + ">" + name, '>');
    FindJoin(ns, ">" + name, '>');
    assert ns + ">" + name == ns + (">" + name);
    assert Find(">" + name, '>') == 0 && Find("<", '>') == 1;
  }

  lemma TakeBehind(s: string, from: nat, n: nat)
    requires from <= |s| && from <= n
    ensures from <= |Take(s, n)| && Take(s, n)[from..] == Take(s[from..], n - from)
  {
  }

  lemma TailBehind(ns: string, name: string, k: nat)
    requires k <= |ns|
    ensures ("<" + (ns + ">" + name))[k + 2..] == (ns + ">")[k + 1..] + name
  {
  }

  /** What follows the first '>' of a mangled name, which may be one in the namespace, up to where the mangled name
      was cut; all of it when it was cut before any '>'. */
  function Remnant(ns: string, name: string): string {
    var k := Find(ns, '>');
    if k + 2 > NAME_MAX then "<" + ns[..NAME_MAX - 1] else Take((ns + ">")[k + 1..] + name, NAME_MAX - k - 2)
  }

  lemma Stripped(ns: string, name: string)
    ensures StripNS(Mangle(ns, name)) == Remnant(ns, name)
  {
    Regrouped(ns, name);
    if Find(ns, '>') + 2 > NAME_MAX {
      CutEarly(ns, name);
    } else {
      CutLate(ns, name);
    }
  }

  lemma Regrouped(ns: string, name: string)
    ensures "<" + ns + ">" + name == "<" + (ns + ">" + name)
  {
  }

  lemma CutLate(ns: string, name: string)
    requires Find(ns, '>') + 2 <= NAME_MAX
    ensures var k := Find(ns, '>');
            StripNS(Take("<" + (ns + ">" + name), NAME_MAX)) == Take((ns + ">")[k + 1..] + name, NAME_MAX - k - 2)
  {
    var k, whole := Find(ns, '>'), "<" + (ns + ">" + name);
    FindMangled(ns, name);
    TailBehind(ns, name, k);
    assert |whole| == |ns| + |name| + 2 && whole[0] == '<';
    StripTaken(whole, k + 2, (ns + ">")[k + 1..] + name);
  }

  lemma StripTaken(whole: string, from: nat, tail: string)
    requires 0 < from <= |whole| && whole[0] == '<' && from <= NAME_MAX && Find(whole, '>') == from - 1
    requires whole[from..] == tail
    ensures StripNS(Take(whole, NAME_MAX)) == Take(tail, NAME_MAX - from)
  {
    FindTake(whole, '>', NAME_MAX);
    TakeBehind(whole, from, NAME_MAX);
    StripAt(Take(whole, NAME_MAX), from - 1);
  }

  lemma StripAt(cut: string, i: nat)
    requires cut != "" && cut[0] == '<' && i == Find(cut, '>') < |cut|
    ensures StripNS(cut) == cut[i + 1..]
  {
  }

  lemma CutEarly(ns: string, name: string)
    requires Find(ns, '>') + 2 > NAME_MAX
    ensures StripNS(Take("<" + (ns + ">" + name), NAME_MAX)) == "<" + ns[..NAME_MAX - 1]
  {
    var whole := "<" + (ns + ">" + name);
    FindMangled(ns, name);
    FindTake(whole, '>', NAME_MAX);
    assert Take(whole, NAME_MAX) == "<" + ns[..NAME_MAX - 1];
  }

  /** The namespace has no '>' and the name fits; or it was cut and is of the one form that comes back by chance. */
  predicate ComesBack(ns: string, name: string) {
    var k := Find(ns, '>');
    if k + 2 > NAME_MAX then name == "<" + ns[..NAME_MAX - 1]
    else if k == |ns| then Fits(ns, name)
    else name == Repeated(ns[k + 1..] + ">", NAME_MAX - k - 2)
  }

  /** For every namespace and name, stripping undoes mangling exactly then. */
  lemma StripUndoesMangle(ns: string, name: string)
    ensures StripNS(Mangle(ns, name)) == name <==> ComesBack(ns, name)
  {
    Stripped(ns, name);
    RemnantIs(ns, name);
  }

  lemma RemnantIs(ns: string, name: string)
    ensures Remnant(ns, name) == name <==> ComesBack(ns, name)
  {
    if Find(ns, '>') + 2 <= NAME_MAX {
      TailKept(ns, name, Find(ns, '>'));
    }
  }

  lemma TailKept(ns: string, name: string, k: nat)
    requires k <= |ns| && k + 2 <= NAME_MAX
    ensures Take((ns + ">")[k + 1..] + name, NAME_MAX - k - 2) == name <==>
            if k == |ns| then Fits(ns, name) else name == Repeated(ns[k + 1..] + ">", NAME_MAX - k - 2)
  {
    TailOf(ns, k);
    if k == |ns| {
      WholeTaken(name, NAME_MAX - k - 2);
    } else {
      SelfPrefix(ns[k + 1..] + ">", name, NAME_MAX - k - 2);
    }
  }

  lemma TailOf(ns: string, k: nat)
    requires k <= |ns|
    ensures (ns + ">")[k + 1..] == if k == |ns| then "" else ns[k + 1..] + ">"
  {
  }

  lemma WholeTaken(name: string, n: nat)
    ensures Take("" + name, n) == name <==> |name| <= n
  {
  }

  /** A name mangled twice is the same again exactly when it is the cut repetition of its namespace in brackets. */
  lemma MangledTwice(ns: string, name: string)
    ensures Mangle(ns, Mangle(ns, name)) == name <==>
            name == Repeated("<" + ns + ">" + "<" + ns + ">", NAME_MAX)
  {
    var p := "<" + ns + ">";
    TakeTwice(p, p + name);
    assert p + (p + name) == (p + p) + name;
    assert p + p == "<" + ns + ">" + "<" + ns + ">";
    SelfPrefix(p + p, name, NAME_MAX);
  }

  lemma TakeTwice(p: string, s: string)
    ensures Take(p + Take(s, NAME_MAX), NAME_MAX) == Take(p + s, NAME_MAX)
  {
  }

  // ---------------------------------------------------------------- names that meet

  predicate Begins(s: string, prefix: string) {
    |prefix| <= |s| && s[..|prefix|] == prefix
  }

  /** Two namespaces never meet in a selection that fits both exactly when neither name followed by '>' begins
      the other: so never, when no name has a '>'. */
  lemma NeverMeet(a: string, b: string)
    requires a != b && |a| + |b| + 4 <= NAME_MAX
    ensures (forall m, n :: Fits(a, m) && Fits(b, n) ==> Mangle(a, m) != Mangle(b, n)) <==>
            !Begins(b, a + ">") && !Begins(a, b + ">")
    ensures '>' !in a && '>' !in b ==> !Begins(b, a + ">") && !Begins(a, b + ">")
  {
    if Begins(b, a + ">") {
      Meet(a, b);
    } else if Begins(a, b + ">") {
      Meet(b, a);
    } else {
      forall m, n | Fits(a, m) && Fits(b, n) ensures Mangle(a, m) != Mangle(b, n) {
        if Mangle(a, m) == Mangle(b, n) {
          Collide(a, m, b, n);
        }
      }
    }
  }

  lemma Meet(a: string, b: string)
    requires Begins(b, a + ">") && |a| + |b| + 4 <= NAME_MAX
    ensures exists m :: Fits(a, m) && Fits(b, "") && Mangle(a, m) == Mangle(b, "")
    ensures '>' in b
  {
    assert b[..|a| + 1] == a + ">" && b[..|a| + 1][|a|] == '>';
    assert b == a + ">" + b[|a| + 1..];
    var m := b[|a| + 1..] + ">";
    assert "<" + a + ">" + m == "<" + b + ">" + "";
    assert Fits(a, m);
  }

  lemma Collide(a: string, m: string, b: string, n: string)
    requires Fits(a, m) && Fits(b, n) && Mangle(a, m) == Mangle(b, n)
    ensures a == b || Begins(b, a + ">") || Begins(a, b + ">")
  {
    var l, r := "<" + a + ">" + m, "<" + b + ">" + n;
    assert l == r;
    assert l[1..|a| + 2] == a + ">" && r[1..|b| + 2] == b + ">";
    if |a| < |b| {
      assert b[..|a| + 1] == r[1..|a| + 2];
    } else if |b| < |a| {
      assert a[..|b| + 1] == l[1..|b| + 2];
    } else {
      assert a == l[1..|a| + 1] == b;
    }
  }

  /** Names that were cut meet only within a namespace: whatever the names are, two namespaces without '>' meet exactly
      when they are the same one and the names are alike as far as they were kept. */
  lemma CutApart(a: string, m: string, b: string, n: string)
    requires '>' !in a && '>' !in b && |a| + 2 <= NAME_MAX && |b| + 2 <= NAME_MAX
    ensures Mangle(a, m) == Mangle(b, n) <==>
            a == b && Take(m, NAME_MAX - |a| - 2) == Take(n, NAME_MAX - |b| - 2)
  {
    Bracketed(a, m);
    Bracketed(b, n);
    if Mangle(a, m) == Mangle(b, n) {
      Collide(a, Take(m, NAME_MAX - |a| - 2), b, Take(n, NAME_MAX - |b| - 2));
      if Begins(a, b + ">") {
        BracketIn(a, b);
      } else if Begins(b, a + ">") {
        BracketIn(b, a);
      } else {
        SameTail("<" + a + ">", Take(m, NAME_MAX - |a| - 2), Take(n, NAME_MAX - |a| - 2));
      }
    }
  }

  /** Cutting a mangled name cuts the name. */
  lemma Bracketed(ns: string, name: string)
    requires |ns| + 2 <= NAME_MAX
    ensures var kept := Take(name, NAME_MAX - |ns| - 2);
            Mangle(ns, name) == "<" + ns + ">" + kept == Mangle(ns, kept)
  {
  }

  lemma SameTail(p: string, s: string, t: string)
    requires p + s == p + t
    ensures s == t
  {
    assert s == (p + s)[|p|..] == (p + t)[|p|..] == t;
  }

  lemma BracketIn(s: string, start: string)
    requires Begins(s, start + ">")
    ensures '>' in s
  {
    assert (start + ">")[|start|] == '>';
    assert s[..|start| + 1][|start|] == s[|start|];
  }

  // ---------------------------------------------------------------- names that are mangled ones

  /** A bracketed namespace before a name, short enough not to have been cut. */
  predicate Shaped(n: string) {
    n != "" && n[0] == '<' && '>' in n && |n| <= NAME_MAX
  }

  ghost predicate Reached(n: string) {
    exists ns, name :: '>' !in ns && Fits(ns, name) && Mangle(ns, name) == n
  }

  /** These are exactly the names that belong to some namespace without '>' in its name. */
  lemma ReachedExactly(n: string)
    ensures Reached(n) <==> Shaped(n)
  {
    if ns, name :| '>' !in ns && Fits(ns, name) && Mangle(ns, name) == n {
      assert n[0] == '<' && n[|ns| + 1] == '>';
    }
    if Shaped(n) {
      var k := Find(n, '>');
      Brackets(n, k);
      assert '>' !in n[1..k] && Fits(n[1..k], n[k + 1..]) && Mangle(n[1..k], n[k + 1..]) == n;
    }
  }

  lemma Brackets(n: string, k: nat)
    requires 0 < k < |n| && n[0] == '<' && n[k] == '>'
    ensures "<" + n[1..k] + ">" + n[k + 1..] == n
  {
  }
}
