/** What the lines of a configuration mean, however they are spaced: exactly when a line says what it was
    written to say. */
module ConfigLines {
  import opened Options
  import opened HexTokens
  import opened NamespaceConfig
  import opened ConfigParser

  /** A token the parser takes for one: neither empty nor with a blank, a newline or a comment in it. */
  predicate Word(s: string) {
    s != "" && forall i :: 0 <= i < |s| ==> s[i] != ' ' && s[i] != '\t' && s[i] != '\n' && s[i] != '#'
  }

  predicate Blank(s: string) {
    forall i :: 0 <= i < |s| ==> s[i] == ' ' || s[i] == '\t'
  }

  /** What separates two words. */
  predicate Gap(s: string) {
    s != "" && Blank(s)
  }

  /** The end of a line: nothing, or a newline or a comment with anything behind. */
  predicate End(s: string) {
    s == "" || s[0] == '\n' || s[0] == '#'
  }

  predicate Within(s: string) {
    forall i :: 0 <= i < |s| ==> s[i] != '\n' && s[i] != '#'
  }

  /** Whatever may follow a word of a line, more words among it. */
  predicate Behind(s: string) {
    Within(s) && (s == "" || s[0] in BLANKS)
  }

  lemma JoinedWithin(a: string, b: string, c: string)
    requires (Blank(a) || Within(a)) && (Word(b) || Within(b)) && (Blank(c) || Within(c))
    ensures Within(a + b + c)
  {
  }

  lemma JoinedTail(a: string, b: string, c: string)
    requires a != ""
    ensures (a + b + c)[1..] == a[1..] + b + c && (a + b + c)[0] == a[0]
  {
  }

  // ---------------------------------------------------------------- scanning

  lemma {:induction false} UntilJoin(a: string, b: string, chars: set<char>)
    ensures Until(a + b, chars) == if Until(a, chars) < |a| then Until(a, chars) else |a| + Until(b, chars)
  {
    if a == "" {
      assert a + b == b;
    } else {
      UntilJoin(a[1..], b, chars);
      assert (a + b)[1..] == a[1..] + b;
    }
  }

  lemma {:induction false} SpanJoin(a: string, b: string, chars: set<char>)
    ensures Span(a + b, chars) == if Span(a, chars) < |a| then Span(a, chars) else |a| + Span(b, chars)
  {
    if a == "" {
      assert a + b == b;
    } else {
      SpanJoin(a[1..], b, chars);
      assert (a + b)[1..] == a[1..] + b;
    }
  }

  /** What strtok gives is what it gives from where its token begins. */
  lemma TokenAt(pre: string, t: string, delims: set<char>)
    requires Span(pre, delims) == |pre| && (t == "" || t[0] !in delims)
    ensures StrTok(pre + t, delims) == TokenOf(t, delims)
  {
    SpanJoin(pre, t, delims);
    assert Span(t, delims) == 0;
    assert (pre + t)[|pre|..] == t;
  }

  lemma SpanAll(s: string, chars: set<char>)
    requires forall i :: 0 <= i < |s| ==> s[i] in chars
    ensures Span(s, chars) == |s|
  {
  }

  lemma UntilAll(s: string, chars: set<char>)
    requires forall i :: 0 <= i < |s| ==> s[i] !in chars
    ensures Until(s, chars) == |s|
  {
  }

  lemma WordToken(word: string, rest: string)
    requires Word(word) && (rest == "" || rest[0] in BLANKS)
    ensures TokenOf(word + rest, BLANKS) == (Some(word), if rest == "" then "" else rest[1..])
  {
    UntilAll(word, BLANKS);
    UntilJoin(word, rest, BLANKS);
    assert Until(rest, BLANKS) == 0;
    assert (word + rest)[..|word|] == word;
    assert rest != "" ==> (word + rest)[|word| + 1..] == rest[1..];
  }

  /** The first word behind some blanks, and what follows its delimiter. */
  lemma FirstWord(lead: string, word: string, rest: string)
    requires Blank(lead) && Word(word) && (rest == "" || rest[0] in BLANKS)
    ensures StrTok(lead + word + rest, BLANKS) == (Some(word), if rest == "" then "" else rest[1..])
  {
    SpanAll(lead, BLANKS);
    TokenAt(lead, word + rest, BLANKS);
    WordToken(word, rest);
    assert lead + word + rest == lead + (word + rest);
  }

  /** What is left of a line without its end. */
  lemma TrimmedEnd(line: string, end: string)
    requires Within(line) && End(end)
    ensures Trimmed(line + end) == line
  {
    UntilAll(line, {'\n'});
    UntilJoin(line, end, {'\n'});
    var n := Until(end, {'\n'});
    assert (line + end)[..|line| + n] == line + end[..n];
    UntilAll(line, {'#'});
    UntilJoin(line, end[..n], {'#'});
    assert (line + end[..n])[..|line|] == line;
  }

  /** How a line ends makes no difference. */
  lemma EndIgnored(line: string, end: string)
    requires Within(line) && End(end)
    ensures DirectiveOf(line + end) == DirectiveOf(line)
  {
    TrimmedEnd(line, end);
    TrimmedEnd(line, "");
    assert line + "" == line;
  }

  /** A comment changes nothing, whatever line it is put behind. */
  lemma CommentIgnored(line: string, comment: string)
    requires '\n' !in line
    ensures DirectiveOf(line + "#" + comment) == DirectiveOf(line)
  {
    var n := Until(line, {'#'});
    var before, rest := line[..n], line[n..];
    assert line == before + rest;
    CommentBehind(before, rest, comment);
  }

  lemma CommentBehind(line: string, rest: string, comment: string)
    requires Within(line) && (rest == "" || rest[0] == '#')
    ensures DirectiveOf(line + rest + "#" + comment) == DirectiveOf(line + rest)
  {
    var more := rest + "#" + comment;
    BeforeComment(line, rest);
    BeforeComment(line, more);
    Regrouped(line, rest, "#", comment);
  }

  lemma Regrouped(a: string, b: string, c: string, d: string)
    ensures a + b + c + d == a + (b + c + d)
  {
  }

  lemma BeforeComment(line: string, rest: string)
    requires Within(line) && End(rest)
    ensures DirectiveOf(line + rest) == DirectiveOf(line)
  {
    EndIgnored(line, rest);
  }

  /** The first word of a line decides what is made of the rest. */
  lemma LineOf(lead: string, word: string, rest: string, end: string)
    requires Blank(lead) && Word(word) && Within(rest) && End(end) && (rest == "" || rest[0] in BLANKS)
    ensures DirectiveOf(lead + word + rest + end) == DirectiveFor(word, if rest == "" then "" else rest[1..])
  {
    TrimmedEnd(lead + word + rest, end);
    FirstWord(lead, word, rest);
  }

  // ---------------------------------------------------------------- a word split off at spaces

  /** The token found at spaces in pre, word and trail: from the first tab in pre if there is one, else from the
      word; up to the next space. */
  function Taken(pre: string, word: string, trail: string): string {
    var tabbed := pre[Span(pre, {' '})..];
    if ' ' in tabbed then tabbed[..Until(tabbed, {' '})] else tabbed + (word + trail[..Until(trail, {' '})])
  }

  lemma SpaceToken(pre: string, word: string, trail: string)
    requires Word(word)
    ensures StrTok(pre + word + trail, {' '}).0 == Some(Taken(pre, word, trail))
  {
    var k := Span(pre, {' '});
    var tabbed := pre[k..];
    assert pre + word + trail == pre[..k] + (tabbed + (word + trail));
    SpanAll(pre[..k], {' '});
    TokenAt(pre[..k], tabbed + (word + trail), {' '});
    TokenTaken(tabbed, word, trail);
  }

  lemma TokenTaken(tabbed: string, word: string, trail: string)
    requires Word(word)
    ensures TokenOf(tabbed + (word + trail), {' '}).0 ==
            Some(if ' ' in tabbed then tabbed[..Until(tabbed, {' '})]
                 else tabbed + (word + trail[..Until(trail, {' '})]))
  {
    UntilJoin(tabbed, word + trail, {' '});
    if ' ' in tabbed {
      TokenWithin(tabbed, word + trail);
    } else {
      UntilAll(tabbed, {' '});
      TokenAcross(tabbed, word + trail, {' '});
      WordEnd(word, trail);
    }
  }

  lemma TokenWithin(tabbed: string, rest: string)
    requires ' ' in tabbed
    ensures TokenOf(tabbed + rest, {' '}).0 == Some(tabbed[..Until(tabbed, {' '})])
  {
    var n := Until(tabbed, {' '});
    UntilJoin(tabbed, rest, {' '});
    assert n < |tabbed|;
    assert (tabbed + rest)[..n] == tabbed[..n];
  }

  lemma TokenAcross(tabbed: string, rest: string, delims: set<char>)
    requires Until(tabbed, delims) == |tabbed| && rest != ""
    ensures TokenOf(tabbed + rest, delims).0 == Some(tabbed + rest[..Until(rest, delims)])
  {
    UntilJoin(tabbed, rest, delims);
    Prefix(tabbed, rest, Until(rest, delims));
    TokenIs(tabbed + rest, delims);
  }

  lemma TokenIs(t: string, delims: set<char>)
    requires t != ""
    ensures TokenOf(t, delims).0 == Some(t[..Until(t, delims)])
  {
  }

  lemma WordEnd(word: string, trail: string)
    requires Word(word)
    ensures (word + trail)[..Until(word + trail, {' '})] == word + trail[..Until(trail, {' '})]
  {
    UntilAll(word, {' '});
    UntilJoin(word, trail, {' '});
    Prefix(word, trail, Until(trail, {' '}));
  }

  lemma Prefix(a: string, b: string, n: nat)
    requires n <= |b|
    ensures (a + b)[..|a| + n] == a + b[..n]
  {
  }

  lemma TakenPlain(pre: string, word: string, trail: string)
    requires Blank(pre) && '\t' !in pre
    ensures Taken(pre, word, trail) == word + trail[..Until(trail, {' '})]
  {
    SpanAll(pre, {' '});
    assert pre[|pre|..] == "";
  }

  lemma TakenTabbed(pre: string, word: string, trail: string)
    requires Blank(pre) && '\t' in pre
    ensures Taken(pre, word, trail) != "" && Taken(pre, word, trail)[0] == '\t'
  {
    var k := Span(pre, {' '});
    assert k < |pre|;
    assert pre[k..][0] == '\t';
  }

  // ---------------------------------------------------------------- namespace lines

  lemma NamespaceReads(lead: string, key: string, gap: string, name: string, trail: string, end: string)
    requires Blank(lead) && NamespaceKey(key) && Gap(gap) && Word(name) && Behind(trail) && End(end)
    ensures DirectiveOf(lead + key + (gap + name + trail) + end) == Some(Enter(Taken(gap[1..], name, trail)))
  {
    var rest := gap + name + trail;
    KeyWord(key);
    JoinedWithin(gap, name, trail);
    JoinedTail(gap, name, trail);
    LineOf(lead, key, rest, end);
    SpaceToken(gap[1..], name, trail);
    NamespaceDirective(key, rest[1..], Taken(gap[1..], name, trail));
  }

  predicate NamespaceKey(key: string) {
    key == "namespace" || key == "container"
  }

  lemma KeyWord(key: string)
    requires NamespaceKey(key)
    ensures Word(key)
  {
  }

  lemma NamespaceDirective(key: string, rest: string, name: string)
    requires NamespaceKey(key) && StrTok(rest, {' '}).0 == Some(name)
    ensures DirectiveFor(key, rest) == Some(Enter(name))
  {
  }

  lemma Extended(s: string, t: string)
    ensures s + t == s <==> t == ""
  {
    assert |s + t| == |s| + |t|;
    assert s + "" == s;
  }

  /** A namespace line, whatever follows the name, such as that of a parent, enters the namespace it names exactly when
      no tab follows the first blank before the name and none comes right behind it. */
  lemma NamespaceLine(lead: string, key: string, gap: string, name: string, trail: string, end: string)
    requires Blank(lead) && NamespaceKey(key) && Gap(gap) && Word(name) && Behind(trail) && End(end)
    ensures DirectiveOf(lead + key + (gap + name + trail) + end) == Some(Enter(name)) <==>
            '\t' !in gap[1..] && (trail == "" || trail[0] != '\t')
  {
    NamespaceReads(lead, key, gap, name, trail, end);
    if '\t' in gap[1..] {
      TakenTabbed(gap[1..], name, trail);
    } else {
      TakenPlain(gap[1..], name, trail);
      Extended(name, trail[..Until(trail, {' '})]);
    }
  }

  // ---------------------------------------------------------------- auth lines

  lemma PrintedWord(data: seq<Byte>)
    requires data != []
    ensures Word(Printed(data))
  {
    var s := Printed(data);
    forall k | 0 <= k < |s| ensures '0' <= s[k] <= 'F' {
      PrintedAt(data, k / 2);
      DigitRange(data[k / 2] / 16);
      DigitRange(data[k / 2] % 16);
      assert k == 2 * (k / 2) || k == 2 * (k / 2) + 1;
    }
  }

  lemma DigitRange(v: nat)
    requires v < 16
    ensures '0' <= DIGITS[v] <= 'F'
  {
  }

  /** An auth line with a protocol word and a word behind it, as spaced. */
  function AuthText(lead: string, gap: string, proto: string, sep: string, hex: string, trail: string): string {
    lead + "auth" + (gap + proto + (sep + hex + trail))
  }

  lemma AuthReads(lead: string, gap: string, proto: string, sep: string, hex: string, trail: string, end: string)
    requires Blank(lead) && Gap(gap) && Word(proto) && Gap(sep) && Word(hex) && Behind(trail) && End(end)
    ensures DirectiveOf(AuthText(lead, gap, proto, sep, hex, trail) + end) ==
            Some(Auth(Token(proto, TokenData(Taken(sep[1..], hex, trail)))))
  {
    var after := sep + hex + trail;
    var rest := gap + proto + after;
    JoinedWithin(sep, hex, trail);
    JoinedWithin(gap, proto, after);
    JoinedTail(gap, proto, after);
    LineOf(lead, "auth", rest, end);
    AuthRest(gap[1..], proto, sep, hex, trail);
    AuthWord(rest[1..]);
  }

  lemma AuthRest(lead: string, proto: string, sep: string, hex: string, trail: string)
    requires Blank(lead) && Word(proto) && Gap(sep) && Word(hex) && Behind(trail)
    ensures AuthDirective(lead + proto + (sep + hex + trail)) ==
            Some(Auth(Token(proto, TokenData(Taken(sep[1..], hex, trail)))))
  {
    var after := sep + hex + trail;
    JoinedTail(sep, hex, trail);
    FirstWord(lead, proto, after);
    SpaceToken(sep[1..], hex, trail);
  }

  lemma AuthWord(rest: string)
    ensures DirectiveFor("auth", rest) == AuthDirective(rest)
  {
  }

  /** The data an auth line gives: what was printed and, if a tab comes right behind it, a zero for every two
      characters from there to the next space; only zeros when a tab follows the first blank before it. */
  lemma AuthData(sep: string, data: seq<Byte>, trail: string)
    requires Gap(sep) && data != [] && Behind(trail)
    ensures var taken := Taken(sep[1..], Printed(data), trail);
            TokenData(taken) ==
            if '\t' in sep[1..] then Zeros(|taken| / 2) else data + Zeros(Until(trail, {' '}) / 2)
  {
    if '\t' in sep[1..] {
      TakenTabbed(sep[1..], Printed(data), trail);
      TabBefore(Taken(sep[1..], Printed(data), trail));
    } else {
      TakenPlain(sep[1..], Printed(data), trail);
      TabsBehind(data, trail[..Until(trail, {' '})]);
    }
  }

  /** An auth line, whatever follows the digits, gives back the credential printed in it exactly when no tab follows the
      first blank before the digits and no more than one tab stands between them and the next space or the end; or, if
      the data is all zero, when a tab before the digits makes up as many zeros. */
  lemma AuthLine(lead: string, gap: string, token: Token, sep: string, trail: string, end: string)
    requires Blank(lead) && Gap(gap) && Word(token.proto) && Gap(sep) && token.data != [] && Behind(trail) && End(end)
    ensures var hex := Printed(token.data);
            DirectiveOf(AuthText(lead, gap, token.proto, sep, hex, trail) + end) == Some(Auth(token)) <==>
            if '\t' in sep[1..] then token.data == Zeros(|Taken(sep[1..], hex, trail)| / 2)
            else Until(trail, {' '}) <= 1
  {
    PrintedWord(token.data);
    AuthReads(lead, gap, token.proto, sep, Printed(token.data), trail, end);
    AuthData(sep, token.data, trail);
    var zeros := Zeros(Until(trail, {' '}) / 2);
    assert |token.data + zeros| == |token.data| + |zeros|;
    assert zeros == [] ==> token.data + zeros == token.data;
  }

  /** For data that is not all zero: exactly when no tab follows the first blank before the digits and no more than one
      stands between them and the next space or the end. */
  lemma AuthLineExactly(lead: string, gap: string, token: Token, sep: string, trail: string, end: string)
    requires Blank(lead) && Gap(gap) && Word(token.proto) && Gap(sep) && Behind(trail) && End(end)
    requires exists i :: 0 <= i < |token.data| && token.data[i] != 0
    ensures var line := AuthText(lead, gap, token.proto, sep, Printed(token.data), trail) + end;
            DirectiveOf(line) == Some(Auth(token)) <==> '\t' !in sep[1..] && Until(trail, {' '}) <= 1
  {
    AuthLine(lead, gap, token, sep, trail, end);
  }

  /** A tab behind the first blank before the digits is taken for one of them, so whatever they are the data is all
      zero. */
  lemma TabbedToken(lead: string, gap: string, proto: string, sep: string, hex: string, trail: string, end: string)
    requires Blank(lead) && Gap(gap) && Word(proto) && Gap(sep) && Word(hex) && Behind(trail) && End(end)
    requires '\t' in sep[1..]
    ensures DirectiveOf(AuthText(lead, gap, proto, sep, hex, trail) + end) ==
            Some(Auth(Token(proto, Zeros(|Taken(sep[1..], hex, trail)| / 2))))
  {
    AuthReads(lead, gap, proto, sep, hex, trail, end);
    TakenTabbed(sep[1..], hex, trail);
    TabBefore(Taken(sep[1..], hex, trail));
  }

  // ---------------------------------------------------------------- allow lines

  /** Words, each behind a gap of its own, and what trails them. */
  function Spread(gaps: seq<string>, words: seq<string>, trail: string): string
    requires |gaps| == |words|
  {
    if words == [] then trail else gaps[0] + words[0] + Spread(gaps[1..], words[1..], trail)
  }

  function Granted(words: seq<string>): set<Permission> {
    if words == [] then {} else PermissionOf(words[0]) + Granted(words[1..])
  }

  predicate Spaced(gaps: seq<string>, words: seq<string>, trail: string) {
    && |gaps| == |words| && Blank(trail)
    && (forall i :: 0 <= i < |words| ==> Gap(gaps[i]) && Word(words[i]))
  }

  lemma {:induction false} SpreadPlain(gaps: seq<string>, words: seq<string>, trail: string)
    requires Spaced(gaps, words, trail)
    ensures var s := Spread(gaps, words, trail);
            Within(s) && (s == "" || s[0] in BLANKS)
  {
    if words != [] {
      SpreadPlain(gaps[1..], words[1..], trail);
    }
  }

  lemma BlankSkipped(s: string)
    requires s != "" && s[0] in BLANKS
    ensures Permissions(s) == Permissions(s[1..])
  {
    var k := Span(s[1..], BLANKS);
    assert Span(s, BLANKS) == 1 + k;
    assert s[1 + k..] == s[1..][k..];
    assert StrTok(s, BLANKS) == StrTok(s[1..], BLANKS);
  }

  lemma {:induction false} SpreadGranted(gaps: seq<string>, words: seq<string>, trail: string)
    requires Spaced(gaps, words, trail)
    ensures Permissions(Spread(gaps, words, trail)) == Granted(words)
  {
    if words == [] {
      SpanAll(trail, BLANKS);
      assert trail[|trail|..] == "";
    } else {
      var rest := Spread(gaps[1..], words[1..], trail);
      SpreadPlain(gaps[1..], words[1..], trail);
      FirstWord(gaps[0], words[0], rest);
      SpreadGranted(gaps[1..], words[1..], trail);
      if rest != "" {
        BlankSkipped(rest);
      }
      StrTokShorter(Spread(gaps, words, trail), BLANKS);
    }
  }

  /** The word for a permission. */
  function WordFor(p: Permission): string {
    match p
    case MouseMotion => "mouse-motion"
    case Shape => "shape"
    case Transparency => "transparency"
    case XInput => "xinput"
    case XKeyboard => "xkeyboard"
  }

  lemma WordGrants(word: string, p: Permission)
    ensures p in PermissionOf(word) <==> word == WordFor(p)
  {
    assert |"mouse-motion"| == |"transparency"| == 12 && |"shape"| == 5 && |"xinput"| == 6 && |"xkeyboard"| == 9;
    assert "mouse-motion"[0] == 'm' && "transparency"[0] == 't';
  }

  lemma {:induction false} GrantedExactly(words: seq<string>, p: Permission)
    ensures p in Granted(words) <==> WordFor(p) in words
  {
    if words != [] {
      WordGrants(words[0], p);
      GrantedExactly(words[1..], p);
    }
  }

  /** An allow line grants exactly the permissions its words are for, however they are spaced. */
  lemma AllowLine(lead: string, gaps: seq<string>, words: seq<string>, trail: string, end: string)
    requires Blank(lead) && Spaced(gaps, words, trail) && End(end)
    ensures DirectiveOf(lead + "allow" + Spread(gaps, words, trail) + end) == Some(Allow(Granted(words)))
    ensures forall p :: p in Granted(words) <==> WordFor(p) in words
  {
    forall p ensures p in Granted(words) <==> WordFor(p) in words {
      GrantedExactly(words, p);
    }
    var rest := Spread(gaps, words, trail);
    SpreadPlain(gaps, words, trail);
    LineOf(lead, "allow", rest, end);
    SpreadGranted(gaps, words, trail);
    if rest != "" {
      BlankSkipped(rest);
    }
    AllowWord(if rest == "" then "" else rest[1..]);
  }

  lemma AllowWord(rest: string)
    ensures DirectiveFor("allow", rest) == Some(Allow(Permissions(rest)))
  {
    assert "allow"[1] == 'l' && "auth"[1] == 'u' && |"allow"| == 5;
  }

  // ---------------------------------------------------------------- other lines

  /** A superpower line gives power, whatever follows. */
  lemma PowerLine(lead: string, rest: string, end: string)
    requires Blank(lead) && Behind(rest) && End(end)
    ensures DirectiveOf(lead + "superpower" + rest + end) == Some(Power)
  {
    LineOf(lead, "superpower", rest, end);
    assert |"superpower"| == 10 && |"namespace"| == |"container"| == 9 && |"auth"| == 4 && |"allow"| == 5;
  }

  /** A line that begins with none of the five words says nothing. */
  lemma OtherLine(lead: string, word: string, rest: string, end: string)
    requires Blank(lead) && Word(word) && Behind(rest) && End(end)
    requires word !in {"namespace", "container", "auth", "allow", "superpower"}
    ensures DirectiveOf(lead + word + rest + end) == Some(Ignored)
  {
    LineOf(lead, word, rest, end);
  }

  /** Nor does an empty one. */
  lemma EmptyLine(lead: string, end: string)
    requires Blank(lead) && End(end)
    ensures DirectiveOf(lead + end) == Some(Ignored)
  {
    TrimmedEnd(lead, end);
    SpanAll(lead, BLANKS);
    assert lead[|lead|..] == "";
  }

  /** Nothing, or a blank and then spaces only. */
  predicate Bare(s: string) {
    Blank(s) && (s == "" || forall i :: 1 <= i < |s| ==> s[i] == ' ')
  }

  lemma NoToken(s: string)
    requires Bare(s)
    ensures StrTok(if s == "" then "" else s[1..], {' '}).0 == None
  {
    var t := if s == "" then "" else s[1..];
    SpanAll(t, {' '});
    assert t[|t|..] == "";
  }

  /** A namespace line without a name says nothing. */
  lemma NamelessLine(lead: string, key: string, rest: string, end: string)
    requires Blank(lead) && NamespaceKey(key) && Bare(rest) && End(end)
    ensures DirectiveOf(lead + key + rest + end) == Some(Ignored)
  {
    KeyWord(key);
    LineOf(lead, key, rest, end);
    NoToken(rest);
  }

  /** An auth line with a protocol and no data has no meaning: the token read for the data is not there. */
  lemma DatalessLine(lead: string, gap: string, proto: string, rest: string, end: string)
    requires Blank(lead) && Gap(gap) && Word(proto) && Bare(rest) && End(end)
    ensures DirectiveOf(lead + "auth" + (gap + proto + rest) + end) == None
  {
    JoinedWithin(gap, proto, rest);
    JoinedTail(gap, proto, rest);
    LineOf(lead, "auth", gap + proto + rest, end);
    FirstWord(gap[1..], proto, rest);
    NoToken(rest);
    AuthWord((gap + proto + rest)[1..]);
  }
}
