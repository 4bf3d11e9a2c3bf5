/** What parse_uri() makes of a string, stated without its searches: the fields are
    the one way to cut the string up that follows the rules of each field. */
module UriLayout {
  import opened CLib
  import opened UriCodec
  import opened Uri
  import opened UriRoundTrip

  /** No delimiter of the larger parts. */
  predicate Inner(s: string) {
    '/' !in s && '?' !in s && '#' !in s
  }

  predicate InnerField(f: Option<string>) {
    f.Some? ==> Inner(f.value)
  }

  /** The authority: no `:` or `@` in the user name, no `@` in the password, none at
      all without a user name; host and port as they can be told apart. */
  predicate AuthorityRules(u: URI) {
    && InnerField(u.user) && InnerField(u.password) && InnerField(u.host) && InnerField(u.port)
    && (u.user.Some? ==> ':' !in u.user.value && '@' !in u.user.value)
    && (u.password.Some? ==> '@' !in u.password.value)
    && (u.port.Some? ==> ':' !in u.port.value)
    && (u.host.Some? ==> HostPortOk(u.host.value, u.port))
    && (u.user.None? && u.host.Some? ==> '@' !in u.host.value)
    && (u.user.None? && u.port.Some? ==> '@' !in u.port.value)
  }

  /** The rules for all raw fields together. */
  ghost predicate Laid(u: URI) {
    && RawShape(u) && AuthorityRules(u)
    && (u.opaquePart.Some? ==> '#' !in u.opaquePart.value && !StartsWith(u.opaquePart, '/'))
  }

  function Opt(prefix: string, f: Option<string>): string {
    if f.Some? then prefix + f.value else []
  }

  function HostPart(host: string, port: Option<string>): string {
    host + Opt(":", port)
  }

  function UserPart(user: Option<string>, password: Option<string>): string {
    if user.Some? then user.value + Opt(":", password) + "@" else []
  }

  function Authority(u: URI): string {
    if u.host.Some? then "//" + (UserPart(u.user, u.password) + HostPart(u.host.value, u.port)) else []
  }

  /** Everything after the scheme and its colon, but the fragment. */
  function AfterScheme(u: URI): string {
    Text(u.opaquePart) + Authority(u) + Text(u.epath) + Opt("?", u.equery)
  }

  function MainText(u: URI): string {
    (if u.scheme.Some? then u.scheme.value + ":" else []) + AfterScheme(u)
  }

  /** The fields put back together. */
  function Assemble(u: URI): string {
    MainText(u) + Opt("#", u.efragment)
  }

  // ------------------------------------------------------------------------
  // The fields of a string make up the string
  // ------------------------------------------------------------------------

  lemma CutAt(s: string, k: nat)
    requires k <= |s|
    ensures s == s[..k] + s[k..]
    ensures k < |s| ==> s == s[..k] + ([s[k]] + s[k + 1..])
    ensures forall c :: c !in s ==> c !in s[..k] && c !in s[k..] && (k < |s| ==> c !in s[k + 1..])
  {
  }

  lemma HostPortCuts(hp: string)
    ensures var (h, p) := HostPort(hp);
      && HostPart(h, p) == hp && HostPortOk(h, p) && (p.Some? ==> ':' !in p.value)
      && forall c :: c !in hp ==> c !in h && (p.Some? ==> c !in p.value)
  {
    hide LastIndexOf;
    var k := LastIndexOf(hp, ':');
    CutAt(hp, k);
    if k < |hp| && hp[|hp| - 1] != ']' {
      var p := hp[k + 1..];
      assert p != [] ==> p[|p| - 1] == hp[|hp| - 1];
    } else {
      assert hp + [] == hp;
    }
  }

  lemma InnerCut(s: string, k: nat)
    requires Inner(s) && k <= |s|
    ensures Inner(s[..k]) && Inner(s[k..]) && (k < |s| ==> Inner(s[k + 1..]))
  {
    CutAt(s, k);
  }

  lemma UserCuts(info: string)
    ensures var c := IndexOf(info, ':');
      var password := if c < |info| then Some(info[c + 1..]) else None;
      UserPart(Some(info[..c]), password) == info + "@" && ':' !in info[..c]
  {
    hide IndexOf, Opt;
    Rejoin(info, IndexOf(info, ':'), ':');
  }

  /** What cutting up the authority `a` should give. */
  ghost predicate Cuts(u: URI, a: string, v: URI) {
    && v.host.Some? && Authority(v) == "//" + a && AuthorityRules(v) && (v.password.Some? ==> v.user.Some?)
    && v == u.(user := v.user, password := v.password, host := v.host, port := v.port)
  }

  lemma AuthorityCuts(u: URI, a: string)
    requires NoAuthority(u) && Inner(a)
    ensures Cuts(u, a, WithAuthority(u, a))
  {
    hide IndexOf, Cuts, WithAuthority, NoAuthority;
    var k := IndexOf(a, '@');
    InnerCut(a, k);
    if k < |a| {
      assert a == a[..k] + ['@'] + a[k + 1..];
      UserAuthorityCuts(u, a[..k], a[k + 1..]);
    } else {
      PlainAuthorityCuts(u, a);
    }
  }

  lemma PlainAuthorityCuts(u: URI, a: string)
    requires NoAuthority(u) && Inner(a) && '@' !in a
    ensures Cuts(u, a, WithAuthority(u, a))
  {
    hide IndexOf, HostPort, UserPart, HostPart, HostPortOk;
    IndexOfAbsent(a, '@');
    HostPortCuts(a);
    NoUser();
    assert [] + a == a;
  }

  lemma UserAuthorityCuts(u: URI, info: string, hp: string)
    requires NoAuthority(u) && Inner(info) && Inner(hp) && '@' !in info
    ensures Cuts(u, info + ['@'] + hp, WithAuthority(u, info + ['@'] + hp))
  {
    hide IndexOf, HostPort, UserPart, HostPart, HostPortOk;
    Cut(info, '@', hp);
    HostPortCuts(hp);
    UserCuts(info);
    var c := IndexOf(info, ':');
    CutAt(info, c);
    InnerCut(info, c);
  }

  lemma NoUser()
    ensures UserPart(None, None) == []
  {
  }

  /** Query, authority and path. */
  lemma HierarchicalCuts(scheme: Option<string>, hier: string, fr: Option<string>)
    requires '#' !in hier
    ensures var v := Hierarchical(scheme, hier, fr);
      AfterScheme(v) == hier && AuthorityRules(v) && v.opaquePart.None? && v.scheme == scheme && v.efragment == fr
  {
    hide IndexOf, WithAuthority, AuthorityRules, Inner, AfterScheme;
    var q := IndexOf(hier, '?');
    var ep := hier[..q];
    var query := if q < |hier| then Some(hier[q + 1..]) else None;
    QueryCuts(hier);
    if scheme.Some? && "//" <= ep {
      NetRules(hier, q, IndexOf(ep[2..], '/'));
      NetCuts(scheme, ep, query, fr);
    } else {
      PlainCuts(scheme, if ep == [] then None else Some(ep), query, fr);
      assert Text(if ep == [] then None else Some(ep)) == ep;
    }
  }

  lemma QueryCuts(hier: string)
    ensures var q := IndexOf(hier, '?');
      hier[..q] + Opt("?", if q < |hier| then Some(hier[q + 1..]) else None) == hier
  {
    hide IndexOf, Opt;
    var q := IndexOf(hier, '?');
    Rejoin(hier, q, '?');
  }

  lemma Rejoin(s: string, k: nat, c: char)
    requires k <= |s| && (k < |s| ==> s[k] == c)
    ensures s[..k] + Opt([c], if k < |s| then Some(s[k + 1..]) else None) == s
  {
    var a, b := s[..k], s[k..];
    assert a + b == s;
    assert k < |s| ==> b == [c] + s[k + 1..];
  }

  lemma PlainCuts(scheme: Option<string>, ep: Option<string>, query: Option<string>, fr: Option<string>)
    ensures var v := URI(scheme, None, None, None, None, None, ep, ep, query, fr);
      AfterScheme(v) == Text(ep) + Opt("?", query) && AuthorityRules(v)
  {
    hide Opt;
    assert [] + [] + Text(ep) == Text(ep);
  }

  lemma NetCuts(scheme: Option<string>, ep: string, query: Option<string>, fr: Option<string>)
    requires "//" <= ep && Inner(ep[2..][..IndexOf(ep[2..], '/')])
    ensures var rest := ep[2..];
      var k := IndexOf(rest, '/');
      var path := if k < |rest| then Some(rest[k..]) else None;
      var v := WithAuthority(URI(scheme, None, None, None, None, None, path, path, query, fr), rest[..k]);
      && AfterScheme(v) == ep + Opt("?", query) && AuthorityRules(v)
      && v.opaquePart.None? && v.scheme == scheme && v.efragment == fr
  {
    hide IndexOf, WithAuthority, AuthorityRules, Inner, Authority;
    var rest := ep[2..];
    var k := IndexOf(rest, '/');
    var path := if k < |rest| then Some(rest[k..]) else None;
    AuthorityCuts(URI(scheme, None, None, None, None, None, path, path, query, fr), rest[..k]);
    assert Text(path) == rest[k..];
    assert [] + ("//" + rest[..k]) + rest[k..] == ep;
  }

  lemma NoAuthorityRules(u: URI)
    requires NoAuthority(u)
    ensures AuthorityRules(u) && Authority(u) == []
  {
  }

  lemma NetRules(hier: string, q: nat, k: nat)
    requires '#' !in hier && q == IndexOf(hier, '?') && q >= 2 && k == IndexOf(hier[..q][2..], '/')
    ensures Inner(hier[..q][2..][..k])
  {
    hide IndexOf;
    var ep := hier[..q];
    CutAt(hier, q);
    CutAt(ep, 2);
    CutAt(ep[2..], k);
  }

  lemma MainCuts(raw: string, fr: Option<string>)
    requires '#' !in raw
    ensures var v := ParseMain(raw, fr);
      && MainText(v) == raw && AuthorityRules(v) && v.efragment == fr
      && (v.opaquePart.Some? ==> '#' !in v.opaquePart.value && !StartsWith(v.opaquePart, '/'))
  {
    hide SchemeLen, Hierarchical, AuthorityRules, AfterScheme;
    var n := SchemeLen(raw);
    CutAt(raw, n);
    if n < |raw| && raw[n] == ':' {
      var rest := raw[n + 1..];
      assert raw[..n] + ":" + rest == raw;
      if rest != [] && rest[0] == '/' {
        HierarchicalCuts(Some(raw[..n]), rest, fr);
      } else {
        OpaqueCuts(raw[..n], rest, fr);
      }
    } else {
      HierarchicalCuts(None, raw, fr);
      assert [] + raw == raw;
    }
  }

  lemma OpaqueCuts(scheme: string, rest: string, fr: Option<string>)
    ensures var v := URI(Some(scheme), Some(rest), None, None, None, None, None, None, None, fr);
      AfterScheme(v) == rest && AuthorityRules(v)
  {
    assert rest + [] + [] + [] == rest;
  }

  /** For every string, the raw fields follow the rules, and put back together they
      are the string up to the parameter list. */
  lemma ParseCuts(s: string)
    ensures Laid(ParseRaw(s)) && Assemble(ParseRaw(s)) == s[..FindParams(s)]
  {
    hide ParseMain, RawShape, AuthorityRules, FindParams, IndexOf, MainText;
    var t := s[..FindParams(s)];
    var k := IndexOf(t, '#');
    CutAt(t, k);
    var fr := if k < |t| then Some(t[k + 1..]) else None;
    MainShape(t[..k], fr);
    MainCuts(t[..k], fr);
    assert t[..k] + Opt("#", fr) == t;
  }

  // ------------------------------------------------------------------------
  // And no other fields do
  // ------------------------------------------------------------------------

  lemma HostPartRead(h: string, p: Option<string>)
    requires HostPortOk(h, p) && (p.Some? ==> ':' !in p.value)
    ensures HostPort(HostPart(h, p)) == (h, p)
  {
    hide LastIndexOf, HostPort;
    if p.Some? {
      assert h + (":" + p.value) == h + [':'] + p.value;
      HostPortCut(h, p.value);
    } else {
      assert h + [] == h;
      HostAlone(h);
    }
  }

  lemma HostAlone(h: string)
    requires ':' !in h || h[|h| - 1] == ']'
    ensures HostPort(h) == (h, None)
  {
    hide LastIndexOf;
    var k := LastIndexOf(h, ':');
    assert k < |h| ==> h[k] in h;
  }

  lemma AuthorityRead(u: URI, v: URI)
    requires v.host.Some? && AuthorityRules(v) && (v.password.Some? ==> v.user.Some?) && NoAuthority(u)
    ensures WithAuthority(u, UserPart(v.user, v.password) + HostPart(v.host.value, v.port))
         == u.(user := v.user, password := v.password, host := v.host, port := v.port)
  {
    hide IndexOf, HostPort, HostPart, HostPortOk, Inner;
    var hp := HostPart(v.host.value, v.port);
    HostPartRead(v.host.value, v.port);
    if v.user.Some? {
      var info := v.user.value + Opt(":", v.password);
      assert UserPart(v.user, v.password) + hp == info + ['@'] + hp;
      Cut(info, '@', hp);
      if v.password.Some? {
        assert info == v.user.value + [':'] + v.password.value;
        Cut(v.user.value, ':', v.password.value);
      } else {
        assert info == v.user.value;
        IndexOfAbsent(info, ':');
      }
    } else {
      assert [] + hp == hp;
      HostPartAvoids(v.host.value, v.port, '@');
      IndexOfAbsent(hp, '@');
    }
  }

  lemma HostPartAvoids(h: string, p: Option<string>, c: char)
    requires c !in h && (p.Some? ==> c !in p.value) && c != ':'
    ensures c !in HostPart(h, p)
  {
  }

  lemma QueryRead(ep: string, q: Option<string>)
    requires '?' !in ep
    ensures var hier := ep + Opt("?", q);
      && IndexOf(hier, '?') == |ep| && hier[..|ep|] == ep
      && (if |ep| < |hier| then Some(hier[|ep| + 1..]) else None) == q
  {
    hide IndexOf;
    if q.Some? {
      assert ep + ("?" + q.value) == ep + ['?'] + q.value;
      Cut(ep, '?', q.value);
    } else {
      assert ep + [] == ep;
      IndexOfAbsent(ep, '?');
    }
  }

  lemma AuthorityInner(v: URI)
    requires v.host.Some? && AuthorityRules(v)
    ensures Inner(UserPart(v.user, v.password) + HostPart(v.host.value, v.port))
  {
    hide HostPortOk;
    var a := UserPart(v.user, v.password);
    assert Inner(HostPart(v.host.value, v.port));
    assert v.user.Some? && v.password.Some? ==> Inner(v.password.value);
  }

  lemma HierarchicalRead(u: URI)
    requires Laid(u) && u.opaquePart.None?
    ensures Hierarchical(u.scheme, AfterScheme(u), u.efragment) == u
  {
    hide IndexOf, WithAuthority, AuthorityRules, SchemeOk, NotAScheme;
    if u.host.Some? {
      var a := UserPart(u.user, u.password) + HostPart(u.host.value, u.port);
      AuthorityInner(u);
      hide UserPart, HostPart;
      var ep := "//" + a + Text(u.epath);
      assert AfterScheme(u) == ep + Opt("?", u.equery) by { assert [] + ("//" + a) + Text(u.epath) == ep; }
      assert '?' !in ep;
      QueryRead(ep, u.equery);
      assert ep[2..] == a + Text(u.epath) && "//" <= ep;
      CutPath(a, u.epath);
      AuthorityRead(URI(u.scheme, None, None, None, None, None, u.epath, u.epath, u.equery, u.efragment), u);
    } else {
      var ep := Text(u.epath);
      NoAuthorityRules(u);
      assert AfterScheme(u) == ep + Opt("?", u.equery) by { assert [] + [] + ep == ep; }
      QueryRead(ep, u.equery);
    }
  }

  lemma RelativeMain(u: URI)
    requires Laid(u) && u.scheme.None?
    ensures NotAScheme(AfterScheme(u))
  {
    hide NotAScheme, AuthorityRules;
    NoAuthorityRules(u);
    var q := Opt("?", u.equery);
    EmptyIsNoScheme();
    RelativeStaysRelative(Text(u.epath), q);
    assert [] + [] + Text(u.epath) + q == Text(u.epath) + q;
  }

  lemma EmptyIsNoScheme()
    ensures NotAScheme([])
  {
  }

  lemma AfterSchemeStarts(u: URI)
    requires Laid(u) && u.scheme.Some? && u.opaquePart.None?
    ensures AfterScheme(u) != [] && AfterScheme(u)[0] == '/'
  {
    hide AuthorityRules, SchemeOk, UserPart, HostPart;
    if u.host.None? { NoAuthorityRules(u); }
  }

  lemma MainRead(u: URI)
    requires Laid(u)
    ensures ParseMain(MainText(u), u.efragment) == u
  {
    hide Hierarchical, AuthorityRules, SchemeLen, AfterScheme;
    var rest := AfterScheme(u);
    if u.scheme.None? {
      assert [] + rest == rest;
      RelativeMain(u);
      HierarchicalRead(u);
    } else {
      SchemeParsed(u.scheme.value, rest);
      if u.opaquePart.None? {
        AfterSchemeStarts(u);
        HierarchicalRead(u);
      } else {
        OpaqueCuts(u.scheme.value, u.opaquePart.value, u.efragment);
      }
    }
  }

  lemma AfterSchemeAvoids(u: URI)
    requires Laid(u)
    ensures '#' !in AfterScheme(u)
  {
    hide HostPortOk, NotAScheme, SchemeOk;
    if u.host.Some? { AuthorityInner(u); }
  }

  lemma MainAvoids(u: URI)
    requires Laid(u)
    ensures '#' !in MainText(u)
  {
    hide AuthorityRules, NotAScheme, AfterScheme;
    AfterSchemeAvoids(u);
  }

  /** Fields that follow the rules are the ones found in the string they make up,
      unless that opens a parameter list. */
  lemma AssembleParses(u: URI)
    requires Laid(u) && FindParams(Assemble(u)) == |Assemble(u)|
    ensures ParseRaw(Assemble(u)) == u
  {
    hide Laid, MainText, ParseMain, IndexOf, FindParams;
    var s := Assemble(u);
    assert s[..|s|] == s;
    MainRead(u);
    MainAvoids(u);
    if u.efragment.Some? {
      assert MainText(u) + ("#" + u.efragment.value) == MainText(u) + ['#'] + u.efragment.value;
      Cut(MainText(u), '#', u.efragment.value);
    } else {
      assert MainText(u) + [] == MainText(u);
      IndexOfAbsent(MainText(u), '#');
      assert s[..|s|] == MainText(u);
    }
  }

  /** Parsing is the one way to cut a string up by the rules. */
  lemma ParseUnique(s: string, u: URI)
    ensures ParseRaw(s) == u <==> Laid(u) && Assemble(u) == s[..FindParams(s)]
  {
    hide Laid, ParseRaw, Assemble, FindParams;
    ParseCuts(s);
    if Laid(u) && Assemble(u) == s[..FindParams(s)] {
      NoParamsLeft(s);
      AssembleParses(u);
      SameCut(s);
    }
  }

  /** Without its parameter list a string has none. */
  lemma NoParamsLeft(s: string)
    ensures var t := s[..FindParams(s)]; FindParams(t) == |t|
  {
    var t := s[..FindParams(s)];
    forall i: nat | i < |t| ensures !ParamsAt(t, i) {
      assert t[i..] <= s[i..];
      assert !ParamsAt(s, i);
    }
  }

  lemma SameCut(s: string)
    ensures ParseRaw(s[..FindParams(s)]) == ParseRaw(s)
  {
    hide ParseMain, IndexOf, FindParams;
    NoParamsLeft(s);
    var t := s[..FindParams(s)];
    assert t[..|t|] == t;
  }

  /** The characters of a scheme: letters, and codes 45 and 95. */
  lemma SchemeCharacters(c: char)
    ensures SchemeChar(c) <==> 65 <= c as int <= 90 || 97 <= c as int <= 122 || c as int in {45, 95}
  {
  }

  // ------------------------------------------------------------------------
  // URIs that have a path but no encoded path
  // ------------------------------------------------------------------------

  lemma {:induction false} EncodedIsVisible(f: Field, s: string)
    requires CString(s)
    ensures Visible(Encode(f, s)) && CString(Encode(f, s))
  {
    if s != [] {
      EncodedIsVisible(f, s[1..]);
      assert Visible(EncodeChar(s[0], f)) && CString(EncodeChar(s[0], f));
    }
  }

  /** Such a URI is printed as if the encoding of its path were its encoded path, so
      that it comes back with both exactly if that one would. */
  lemma PathPrinted(u: URI)
    requires CStrings(u) && u.epath.None? && u.path.Some?
    ensures var v := u.(epath := Some(Encode(Path, u.path.value)));
      CStrings(v) && Format(u) == Format(v) && (Parse(Format(u)) == v <==> Canonical(v))
  {
    hide Encode, CString, Visible, Canonical;
    var e := Encode(Path, u.path.value);
    EncodedIsVisible(Path, u.path.value);
    VisiblePrefix(EPath, e, 0);
    var v := u.(epath := Some(e));
    assert PrintPath(u) == PrintPath(v);
    hide Parse;
    ParseFormat(v);
  }
}
