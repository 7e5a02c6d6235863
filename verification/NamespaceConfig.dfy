/** The configuration of the namespace extension: from lines to namespaces, and from credentials to namespaces. */
module NamespaceConfig {
  import opened Options
  import opened HexTokens

  // ---------------------------------------------------------------- namespaces

  datatype Permission = MouseMotion | Shape | Transparency | XInput | XKeyboard

  datatype Token = Token(proto: string, data: seq<Byte>)

  datatype Namespace = Namespace(
    name: string, builtin: bool, allow: set<Permission>, superPower: bool, tokens: seq<Token>, refcnt: nat)

  const ROOT := 0
  const ANON := 1

  const NS_ROOT := Namespace("root", true, {MouseMotion, Shape, Transparency, XInput, XKeyboard}, true, [], 1)
  const NS_ANON := Namespace("anon", true, {}, false, [], 1)

  function NewNamespace(name: string): Namespace {
    Namespace(name, false, {}, false, [], 0)
  }

  function Initial(name: string): Namespace {
    if name == "root" then NS_ROOT else if name == "anon" then NS_ANON else NewNamespace(name)
  }

  // ---------------------------------------------------------------- what a line says

  datatype Directive =
    | Ignored
    | Enter(name: string)
    | Auth(token: Token)
    | Allow(permissions: set<Permission>)
    | Power

  /** The namespaces in the order of their first line, after the two built-in ones. */
  function Names(ds: seq<Directive>): seq<string> {
    if ds == [] then ["root", "anon"] else
      var before, last := Names(ds[..|ds| - 1]), ds[|ds| - 1];
      if last.Enter? && last.name !in before then before + [last.name] else before
  }

  /** The namespace the next line is about. */
  function Section(ds: seq<Directive>): string {
    if ds == [] then "root" else
      var last := ds[|ds| - 1];
      if last.Enter? then last.name else Section(ds[..|ds| - 1])
  }

  function Given(ns: Namespace, d: Directive): Namespace {
    match d
    case Auth(token) => ns.(tokens := ns.tokens + [token])
    case Allow(permissions) => ns.(allow := ns.allow + permissions)
    case Power => ns.(superPower := true)
    case Ignored | Enter(_) => ns
  }

  lemma AllowTwice(ns: Namespace, a: set<Permission>, b: set<Permission>)
    ensures Given(ns, Allow({})) == ns
    ensures Given(Given(ns, Allow(a)), Allow(b)) == Given(ns, Allow(a + b))
  {
    assert ns.allow + {} == ns.allow;
    assert ns.allow + a + b == ns.allow + (a + b);
  }

  /** A namespace is what the lines of its sections give it, one after the other. */
  function Declared(ds: seq<Directive>, name: string): Namespace {
    if ds == [] then Initial(name) else
      var before, last := ds[..|ds| - 1], ds[|ds| - 1];
      if Section(before) == name then Given(Declared(before, name), last) else Declared(before, name)
  }

  lemma {:induction false} DeclaredName(ds: seq<Directive>, name: string)
    ensures Declared(ds, name).name == name
  {
    if ds != [] {
      DeclaredName(ds[..|ds| - 1], name);
    }
  }

  // ---------------------------------------------------------------- what the parser does

  /** The list of namespaces, and the place of the current one, if any was named. */
  datatype Config = Config(list: seq<Namespace>, walk: Option<nat>)

  function FindName(list: seq<Namespace>, name: string): (i: nat)
    ensures i <= |list| && (i < |list| ==> list[i].name == name)
    ensures forall j :: 0 <= j < i ==> list[j].name != name
  {
    if list == [] || list[0].name == name then 0 else 1 + FindName(list[1..], name)
  }

  function Current(c: Config): nat {
    if c.walk.Some? then c.walk.value else ROOT
  }

  function Applied(c: Config, d: Directive): Config {
    if d.Enter? then
      var i := FindName(c.list, d.name);
      Config(if i < |c.list| then c.list else c.list + [NewNamespace(d.name)], Some(i))
    else if Current(c) < |c.list| then c.(list := c.list[Current(c) := Given(c.list[Current(c)], d)])
    else c
  }

  function Loaded(ds: seq<Directive>): Config {
    if ds == [] then Config([NS_ROOT, NS_ANON], None) else Applied(Loaded(ds[..|ds| - 1]), ds[|ds| - 1])
  }

  ghost predicate Means(c: Config, ds: seq<Directive>) {
    && |c.list| == |Names(ds)| && Current(c) < |c.list|
    && (forall i :: 0 <= i < |c.list| ==> c.list[i] == Declared(ds, Names(ds)[i]))
    && Names(ds)[Current(c)] == Section(ds)
  }

  lemma {:induction false} NamesDistinct(ds: seq<Directive>)
    ensures |Names(ds)| >= 2 && Names(ds)[0] == "root" && Names(ds)[1] == "anon"
    ensures forall i, j :: 0 <= i < j < |Names(ds)| ==> Names(ds)[i] != Names(ds)[j]
  {
    if ds != [] {
      NamesDistinct(ds[..|ds| - 1]);
    }
  }

  lemma Undeclared(ds: seq<Directive>, name: string)
    requires name !in Names(ds)
    ensures Section(ds) != name && Declared(ds, name) == NewNamespace(name)
  {
    if ds != [] {
      Undeclared(ds[..|ds| - 1], name);
    }
  }

  /** After every configuration the list holds, in order, every namespace as its sections declare it. */
  lemma {:induction false} LoadedMeans(ds: seq<Directive>)
    ensures Means(Loaded(ds), ds)
  {
    if ds != [] {
      var before, last := ds[..|ds| - 1], ds[|ds| - 1];
      LoadedMeans(before);
      AppliedMeans(Loaded(before), before, last);
      assert before + [last] == ds;
    }
  }

  lemma AppliedMeans(c: Config, ds: seq<Directive>, d: Directive)
    requires Means(c, ds)
    ensures Means(Applied(c, d), ds + [d])
  {
    assert (ds + [d])[..|ds|] == ds;
    NamesDistinct(ds);
    if d.Enter? {
      EnteredMeans(c, ds, d);
    } else {
      forall i | 0 <= i < |c.list| ensures Applied(c, d).list[i] == Declared(ds + [d], Names(ds)[i]) {
        assert Names(ds)[i] == Section(ds) ==> i == Current(c);
      }
    }
  }

  lemma EnteredMeans(c: Config, ds: seq<Directive>, d: Directive)
    requires Means(c, ds) && d.Enter?
    ensures Means(Applied(c, d), ds + [d])
  {
    assert (ds + [d])[..|ds|] == ds;
    var i := FindName(c.list, d.name);
    forall j | 0 <= j < |c.list| ensures c.list[j].name == Names(ds)[j] {
      DeclaredName(ds, Names(ds)[j]);
    }
    if i == |c.list| {
      assert forall j :: 0 <= j < |Names(ds)| ==> Names(ds)[j] != d.name;
      Undeclared(ds, d.name);
    } else {
      assert Names(ds)[i] == d.name;
    }
  }

  // ---------------------------------------------------------------- what later lines leave alone

  predicate Grown(a: Namespace, b: Namespace) {
    && a.name == b.name && a.allow <= b.allow && (a.superPower ==> b.superPower) && a.tokens <= b.tokens
    && a.refcnt == b.refcnt && a.builtin == b.builtin
  }

  /** More lines never take anything back: permissions rise, credentials and namespaces are only added. */
  lemma {:induction false} OnlyGrows(ds: seq<Directive>, more: seq<Directive>)
    ensures Names(ds) <= Names(ds + more)
    ensures forall name :: Grown(Declared(ds, name), Declared(ds + more, name))
  {
    if more == [] {
      assert ds + more == ds;
    } else {
      var but := more[..|more| - 1];
      OnlyGrows(ds, but);
      assert (ds + more)[..|ds + more| - 1] == ds + but;
    }
  }

  // ---------------------------------------------------------------- credentials

  /** Line i gives the credential to the namespace. */
  predicate Gives(ds: seq<Directive>, i: nat, name: string, token: Token) {
    i < |ds| && ds[i] == Auth(token) && Section(ds[..i]) == name
  }

  /** A namespace holds exactly the credentials of the auth lines in its sections. */
  lemma {:induction false} TokensGiven(ds: seq<Directive>, name: string, token: Token)
    ensures token in Declared(ds, name).tokens <==> exists i :: Gives(ds, i, name, token)
  {
    if ds != [] {
      var before, last := ds[..|ds| - 1], ds[|ds| - 1];
      TokensGiven(before, name, token);
      forall i: nat | i < |before| ensures Gives(before, i, name, token) <==> Gives(ds, i, name, token) {
        assert before[..i] == ds[..i];
      }
      assert Gives(ds, |before|, name, token) <==> last == Auth(token) && Section(before) == name;
    }
  }

  // ---------------------------------------------------------------- names and permissions

  /** There is a namespace of a name exactly when it is built in or some line enters it. */
  lemma {:induction false} NamesEntered(ds: seq<Directive>, name: string)
    ensures name in Names(ds) <==> name == "root" || name == "anon" || Enter(name) in ds
  {
    if ds != [] {
      var before, last := ds[..|ds| - 1], ds[|ds| - 1];
      NamesEntered(before, name);
      assert ds == before + [last];
    }
  }

  /** Line i begins the section the next line is in. */
  predicate Begins(ds: seq<Directive>, i: nat, name: string) {
    i < |ds| && ds[i] == Enter(name) && forall j :: i < j < |ds| ==> !ds[j].Enter?
  }

  /** A section is that of the last line that enters one, and of root before any. */
  lemma {:induction false} SectionEntered(ds: seq<Directive>, name: string)
    ensures Section(ds) == name <==>
            (exists i :: Begins(ds, i, name)) || (name == "root" && forall i :: 0 <= i < |ds| ==> !ds[i].Enter?)
  {
    if ds != [] {
      var before, last := ds[..|ds| - 1], ds[|ds| - 1];
      SectionEntered(before, name);
      if last.Enter? {
        assert last.name == name ==> Begins(ds, |before|, name);
        assert forall i :: Begins(ds, i, name) ==> i == |before|;
      } else {
        forall i: nat ensures Begins(ds, i, name) <==> Begins(before, i, name) {
          assert i < |before| ==> ds[i] == before[i];
        }
        assert forall i :: 0 <= i < |before| ==> ds[i] == before[i];
      }
    }
  }

  predicate Empowers(ds: seq<Directive>, i: nat, name: string) {
    i < |ds| && ds[i] == Power && Section(ds[..i]) == name
  }

  /** A namespace has power exactly when it is root or a line of its sections gives it. */
  lemma {:induction false} PowerGiven(ds: seq<Directive>, name: string)
    ensures Declared(ds, name).superPower <==> name == "root" || exists i :: Empowers(ds, i, name)
  {
    if ds != [] {
      var before, last := ds[..|ds| - 1], ds[|ds| - 1];
      PowerGiven(before, name);
      forall i: nat | i < |before| ensures Empowers(before, i, name) <==> Empowers(ds, i, name) {
        assert before[..i] == ds[..i];
      }
      assert Empowers(ds, |before|, name) <==> last == Power && Section(before) == name;
    }
  }

  predicate Permits(ds: seq<Directive>, i: nat, name: string, p: Permission) {
    i < |ds| && ds[i].Allow? && p in ds[i].permissions && Section(ds[..i]) == name
  }

  /** A namespace has a permission exactly when it is root or a line of its sections allows it. */
  lemma {:induction false} PermissionGiven(ds: seq<Directive>, name: string, p: Permission)
    ensures p in Declared(ds, name).allow <==> name == "root" || exists i :: Permits(ds, i, name, p)
  {
    if ds != [] {
      var before, last := ds[..|ds| - 1], ds[|ds| - 1];
      PermissionGiven(before, name, p);
      forall i: nat | i < |before| ensures Permits(before, i, name, p) <==> Permits(ds, i, name, p) {
        assert before[..i] == ds[..i];
      }
      assert Permits(ds, |before|, name, p) <==> last.Allow? && p in last.permissions && Section(before) == name;
    }
  }

  /** Whatever the lines say, just root and anon are built in, and these two have one reference from the start. */
  lemma BuiltIn(ds: seq<Directive>, name: string)
    ensures var ns := Declared(ds, name);
            && (ns.builtin <==> name == "root" || name == "anon")
            && ns.refcnt == if name == "root" || name == "anon" then 1 else 0
  {
    OnlyGrows([], ds);
    assert [] + ds == ds;
    assert Grown(Declared([], name), Declared(ds, name));
  }

  // ---------------------------------------------------------------- whose credential it is

  function Holder(list: seq<Namespace>, token: Token): (i: nat)
    ensures i <= |list| && (i < |list| ==> token in list[i].tokens)
    ensures forall j :: 0 <= j < i ==> token !in list[j].tokens
  {
    if list == [] || token in list[0].tokens then 0 else 1 + Holder(list[1..], token)
  }

  /** The namespace a client with the credential is put into. */
  function FoundByAuth(list: seq<Namespace>, token: Token): nat {
    if Holder(list, token) < |list| then Holder(list, token) else ANON
  }

  /** No line gives the credential to a namespace before this one in the list. */
  ghost predicate GivenFirst(ds: seq<Directive>, k: nat, token: Token) {
    && k < |Names(ds)| && (exists i :: Gives(ds, i, Names(ds)[k], token))
    && (forall j, i :: 0 <= j < k ==> !Gives(ds, i, Names(ds)[j], token))
  }

  /** A client gets the first namespace in the list that an auth line gives its credential to, and anon
      when no line gives it to any. */
  lemma FoundExactly(ds: seq<Directive>, token: Token, k: nat)
    requires k < |Names(ds)|
    ensures FoundByAuth(Loaded(ds).list, token) == k <==>
            GivenFirst(ds, k, token) ||
            (k == ANON && forall i, name :: !Gives(ds, i, name, token))
  {
    LoadedMeans(ds);
    NamesDistinct(ds);
    forall j | 0 <= j < |Names(ds)|
      ensures token in Loaded(ds).list[j].tokens <==> exists i :: Gives(ds, i, Names(ds)[j], token)
    {
      TokensGiven(ds, Names(ds)[j], token);
    }
    forall i, name | Gives(ds, i, name, token) ensures name in Names(ds) {
      SectionNamed(ds, i);
    }
    var h := Holder(Loaded(ds).list, token);
    if h < |Names(ds)| {
      assert GivenFirst(ds, h, token);
      assert GivenFirst(ds, k, token) ==> !(k < h) && !(h < k);
    }
  }

  lemma {:induction false} SectionNamed(ds: seq<Directive>, i: nat)
    requires i <= |ds|
    ensures Section(ds[..i]) in Names(ds)
  {
    if i == |ds| {
      assert ds[..i] == ds;
      LoadedMeans(ds);
    } else {
      var before := ds[..|ds| - 1];
      SectionNamed(before, i);
      assert before[..i] == ds[..i];
    }
  }

  /** Every auth line is honoured: whatever follows it, its credential leads to a namespace that holds it, its
      own or one before that in the list; to its own if no line gives it to another. */
  lemma AuthHonoured(ds: seq<Directive>, i: nat, name: string, token: Token)
    requires Gives(ds, i, name, token)
    ensures var k := FoundByAuth(Loaded(ds).list, token);
            && k < |Names(ds)| == |Loaded(ds).list| && token in Loaded(ds).list[k].tokens
            && name !in Names(ds)[..k]
            && ((forall j, other :: Gives(ds, j, other, token) ==> other == name) ==> Names(ds)[k] == name)
  {
    LoadedMeans(ds);
    SectionNamed(ds, i);
    var at :| 0 <= at < |Names(ds)| && Names(ds)[at] == name;
    TokensGiven(ds, name, token);
    var k := FoundByAuth(Loaded(ds).list, token);
    TokensGiven(ds, Names(ds)[k], token);
  }
}
