/** When printing a URI and parsing the result gives the URI back. */
module UriRoundTrip {
  import opened CLib
  import opened UriCodec
  import opened Uri

  // ------------------------------------------------------------------------
  // Searches in concatenations
  // ------------------------------------------------------------------------

  lemma {:induction false} IndexOfConcat(a: string, b: string, c: char)
    requires c !in a
    ensures IndexOf(a + b, c) == |a| + IndexOf(b, c)
  {
    if a == [] {
      assert a + b == b;
    } else {
      assert (a + b)[1..] == a[1..] + b;
      IndexOfConcat(a[1..], b, c);
    }
  }

  lemma IndexOfAbsent(s: string, c: char)
    ensures c !in s <==> IndexOf(s, c) == |s|
  {
  }

  lemma {:induction false} LastIndexOfSuffix(a: string, c: char, b: string)
    requires c !in b
    ensures LastIndexOf(a + [c] + b, c) == |a|
  {
    var s := a + [c] + b;
    if a == [] {
      assert s[1..] == b;
    } else {
      assert s[1..] == a[1..] + [c] + b;
      LastIndexOfSuffix(a[1..], c, b);
    }
  }

  lemma {:induction false} FindParamsConcat(a: string, b: string)
    requires '#' !in a
    ensures FindParams(a + b) == |a| + FindParams(b)
  {
    if a == [] {
      assert a + b == b;
    } else {
      assert (a + b)[1..] == a[1..] + b;
      assert PARAMS[0] == '#' && (a + b)[0] == a[0];
      FindParamsConcat(a[1..], b);
    }
  }

  lemma {:induction false} SchemeLenConcat(a: string, b: string)
    requires forall i :: 0 <= i < |a| ==> SchemeChar(a[i])
    ensures SchemeLen(a + b) == |a| + SchemeLen(b)
  {
    if a == [] {
      assert a + b == b;
    } else {
      assert (a + b)[1..] == a[1..] + b;
      SchemeLenConcat(a[1..], b);
    }
  }

  // ------------------------------------------------------------------------
  // What encoding does to single characters
  // ------------------------------------------------------------------------

  /** Not produced by an escape sequence. */
  predicate Plain(c: char) {
    c != '%' && !('0' <= c <= '9') && !('A' <= c <= 'F')
  }

  lemma EscapeIsNotPlain(c: char, d: char)
    requires c as int < 256 && Plain(d)
    ensures d !in HexEscape(c)
  {
  }

  /** An escaped character cannot appear in an encoded field. */
  lemma {:induction false} EncodeAvoids(f: Field, s: string, c: char)
    requires CString(s) && Plain(c) && (Escaped(c, f) || c !in s)
    ensures c !in Encode(f, s)
  {
    if s != [] {
      EncodeAvoids(f, s[1..], c);
      EscapeIsNotPlain(s[0], c);
    }
  }

  /** An unescaped one appears exactly when it is in the field. */
  lemma {:induction false} EncodeKeeps(f: Field, s: string, c: char)
    requires CString(s) && Plain(c) && !Escaped(c, f)
    ensures c in Encode(f, s) <==> c in s
  {
    if s != [] {
      EncodeKeeps(f, s[1..], c);
      EscapeIsNotPlain(s[0], c);
      assert c in s <==> c == s[0] || c in s[1..];
      assert c in Encode(f, s) <==> c in EncodeChar(s[0], f) || c in Encode(f, s[1..]);
    }
  }

  lemma CStringConcat(a: string, b: string)
    requires CString(a) && CString(b)
    ensures CString(a + b)
  {
  }

  lemma EncodeEmpty(f: Field)
    ensures Encode(f, []) == []
  {
  }

  lemma EncodeHead(f: Field, s: string)
    requires CString(s) && s != []
    ensures CString(s[1..]) && s[0] as int < 256 && Encode(f, s) == EncodeChar(s[0], f) + Encode(f, s[1..])
  {
    hide EncodeChar;
  }

  lemma {:induction false} EncodeConcat(f: Field, a: string, b: string)
    requires CString(a) && CString(b)
    ensures CString(a + b) && Encode(f, a + b) == Encode(f, a) + Encode(f, b)
  {
    hide EncodeChar, CString, Encode;
    CStringConcat(a, b);
    if a == [] {
      assert a + b == b;
      EncodeEmpty(f);
    } else {
      EncodeHead(f, a);
      EncodeHead(f, a + b);
      assert (a + b)[1..] == a[1..] + b;
      EncodeConcat(f, a[1..], b);
      var x, y, z := EncodeChar(a[0], f), Encode(f, a[1..]), Encode(f, b);
      assert x + (y + z) == (x + y) + z;
    }
  }

  /** The last character of an encoded field is `]` only if the field's is. */
  lemma EncodeEndsInBracket(f: Field, s: string)
    requires CString(s) && s != [] && !Escaped(']', f)
    ensures |Encode(f, s)| > 0
    ensures Encode(f, s)[|Encode(f, s)| - 1] == ']' <==> s[|s| - 1] == ']'
  {
    var n := |s| - 1;
    assert s == s[..n] + [s[n]];
    EncodeConcat(f, s[..n], [s[n]]);
    assert Encode(f, [s[n]]) == EncodeChar(s[n], f);
    EscapeIsNotPlain(s[n], ']');
  }

  lemma EncodeFirst(f: Field, s: string)
    requires CString(s) && s != []
    ensures |Encode(f, s)| > 0
    ensures Encode(f, s)[0] == if Escaped(s[0], f) then '%' else s[0]
  {
  }

  ghost predicate Visible(s: string) {
    forall i :: 0 <= i < |s| ==> '!' <= s[i] <= '~'
  }

  /** An already-encoded field prints as itself exactly when all its characters
      are visible; otherwise not even a prefix of what is printed equals it. */
  lemma {:induction false} VisiblePrefix(f: Field, s: string, k: nat)
    requires CString(s) && AlreadyEncoded(f) && k <= |Encode(f, s)|
    ensures Encode(f, s)[..k] == s <==> Visible(s) && k == |s|
    ensures Visible(s) ==> Encode(f, s) == s
  {
    if s != [] {
      if '!' <= s[0] <= '~' {
        var e := Encode(f, s[1..]);
        assert Encode(f, s) == [s[0]] + e;
        if k > 0 {
          VisiblePrefix(f, s[1..], k - 1);
          assert ([s[0]] + e)[..k] == [s[0]] + e[..k - 1];
          assert s == [s[0]] + s[1..];
          assert ([s[0]] + e[..k - 1] == [s[0]] + s[1..]) <==> e[..k - 1] == s[1..] by {
            assert ([s[0]] + e[..k - 1])[1..] == e[..k - 1];
            assert ([s[0]] + s[1..])[1..] == s[1..];
          }
        } else {
          VisiblePrefix(f, s[1..], 0);
        }
        assert Visible(s) <==> Visible(s[1..]) by {
          assert forall i :: 1 <= i < |s| ==> s[i] == s[1..][i - 1];
        }
      } else {
        assert Encode(f, s)[0] == '%';
      }
    }
  }

  lemma {:induction false} SchemeEncodesToItself(s: string)
    requires CString(s) && forall i :: 0 <= i < |s| ==> SchemeChar(s[i])
    ensures Encode(Scheme, s) == s
  {
    if s != [] {
      SchemeEncodesToItself(s[1..]);
      assert !Escaped(s[0], Scheme);
    }
  }

  lemma {:induction false} SchemeDecodesToItself(s: string)
    requires forall i :: 0 <= i < |s| ==> SchemeChar(s[i])
    ensures Decode(s) == s && CStr(s) == s
  {
    if s != [] {
      SchemeDecodesToItself(s[1..]);
    }
  }

  // ------------------------------------------------------------------------
  // The shape of a parsed URI
  // ------------------------------------------------------------------------

  predicate NoAuthority(u: URI) {
    u.user.None? && u.password.None? && u.host.None? && u.port.None?
  }

  predicate StartsWith(s: Option<string>, c: char) {
    s.Some? && s.value != [] && s.value[0] == c
  }

  /** A relative path that would not be taken for a scheme. */
  predicate NotAScheme(s: string) {
    var n := SchemeLen(s);
    n == |s| || s[n] != ':'
  }

  ghost predicate SchemeOk(s: string) {
    forall i :: 0 <= i < |s| ==> SchemeChar(s[i])
  }

  /** Which fields go together. */
  ghost predicate Layout(u: URI) {
    if u.scheme.None? then
      u.opaquePart.None? && NoAuthority(u) && (u.epath.Some? ==> u.epath.value != [] && NotAScheme(u.epath.value))
    else
      && SchemeOk(u.scheme.value)
      && if u.opaquePart.Some? then NoAuthority(u) && u.epath.None? && u.equery.None?
         else if u.host.Some? then
           (u.password.Some? ==> u.user.Some?) && (u.epath.Some? ==> StartsWith(u.epath, '/'))
         else
           NoAuthority(u) && StartsWith(u.epath, '/') && !("//" <= u.epath.value)
  }

  ghost predicate Shape(u: URI) {
    && Layout(u)
    && u.path == DecodeField(u.epath)
    && (u.epath.Some? ==> '?' !in u.epath.value && '#' !in u.epath.value)
    && (u.equery.Some? ==> '#' !in u.equery.value)
  }

  /** The raw counterpart of Shape: the path is still a copy of the encoded path. */
  ghost predicate RawShape(u: URI) {
    && Layout(u)
    && u.path == u.epath
    && (u.epath.Some? ==> '?' !in u.epath.value && '#' !in u.epath.value)
    && (u.equery.Some? ==> '#' !in u.equery.value)
  }

  lemma HierarchicalShape(scheme: Option<string>, hier: string, fr: Option<string>)
    requires '#' !in hier
    requires scheme.Some? ==> SchemeOk(scheme.value) && hier != [] && hier[0] == '/'
    requires scheme.None? ==> NotAScheme(hier)
    ensures RawShape(Hierarchical(scheme, hier, fr))
  {
    var q := IndexOf(hier, '?');
    var ep := hier[..q];
    assert '?' !in ep && '#' !in ep;
    if ep != [] {
      assert ep[0] == hier[0];
      if scheme.Some? && "//" <= ep {
        var rest := ep[2..];
        var k := IndexOf(rest, '/');
        assert '?' !in rest[k..] && '#' !in rest[k..];
      } else if scheme.None? {
        NotASchemePrefix(hier, q);
      }
    }
  }

  lemma {:induction false} NotASchemePrefix(s: string, q: nat)
    requires q <= |s| && NotAScheme(s)
    ensures NotAScheme(s[..q])
  {
    if q > 0 && SchemeChar(s[0]) {
      assert s[..q][1..] == s[1..][..q - 1];
      NotASchemePrefix(s[1..], q - 1);
    }
  }

  lemma MainShape(raw: string, fr: Option<string>)
    requires '#' !in raw
    ensures RawShape(ParseMain(raw, fr))
  {
    var n := SchemeLen(raw);
    if n < |raw| && raw[n] == ':' {
      var rest := raw[n + 1..];
      if rest != [] && rest[0] == '/' {
        hide Hierarchical, RawShape;
        HierarchicalShape(Some(raw[..n]), rest, fr);
      }
    } else {
      hide Hierarchical, RawShape;
      HierarchicalShape(None, raw, fr);
    }
  }

  lemma DecodedShape(u: URI)
    requires RawShape(u)
    ensures Shape(DecodeFields(u))
  {
    hide Decode, CStr;
    if u.scheme.Some? {
      SchemeDecodesToItself(u.scheme.value);
    }
  }

  /** Every parse result has the shape. */
  lemma ParseHasShape(s: string)
    ensures Shape(Parse(s))
  {
    hide ParseMain, RawShape, Shape, DecodeFields;
    var t := s[..FindParams(s)];
    var k := IndexOf(t, '#');
    MainShape(t[..k], if k < |t| then Some(t[k + 1..]) else None);
    DecodedShape(ParseRaw(s));
  }

  // ------------------------------------------------------------------------
  // Parsing what has been printed
  // ------------------------------------------------------------------------

  function Enc(f: Field, s: Option<string>): Option<string>
    requires FieldOk(s)
  {
    if s.Some? then Some(Encode(f, s.value)) else None
  }

  lemma Cut(a: string, c: char, b: string)
    requires c !in a
    ensures var s := a + [c] + b;
      IndexOf(s, c) == |a| && s[..|a|] == a && s[|a| + 1..] == b
  {
    assert a + [c] + b == a + ([c] + b);
    IndexOfConcat(a, [c] + b, c);
  }

  lemma CutLast(a: string, c: char, b: string)
    requires c !in b
    ensures var s := a + [c] + b;
      LastIndexOf(s, c) == |a| && s[..|a|] == a && s[|a| + 1..] == b
  {
    LastIndexOfSuffix(a, c, b);
  }

  lemma CutQuery(ep: string, q: Option<string>)
    requires '?' !in ep && FieldOk(q)
    ensures var hier := ep + Print("?", EQuery, q);
      && IndexOf(hier, '?') == |ep| && hier[..|ep|] == ep
      && (if |ep| < |hier| then Some(hier[|ep| + 1..]) else None) == Enc(EQuery, q)
  {
    hide Encode, IndexOf;
    if q.Some? {
      var e := Encode(EQuery, q.value);
      assert ep + ("?" + e) == ep + ['?'] + e;
      Cut(ep, '?', e);
    } else {
      assert ep + [] == ep;
      IndexOfAbsent(ep, '?');
    }
  }

  lemma PlainPathParsed(sc: Option<string>, ep: string, q: Option<string>, fr: Option<string>)
    requires '?' !in ep && FieldOk(q) && ep != [] && !(sc.Some? && "//" <= ep)
    ensures Hierarchical(sc, ep + Print("?", EQuery, q), fr)
         == URI(sc, None, None, None, None, None, Some(ep), Some(ep), Enc(EQuery, q), fr)
  {
    CutQuery(ep, q);
  }

  function Text(s: Option<string>): string {
    if s.Some? then s.value else []
  }

  lemma NetPathParsed(sc: string, a: string, ep: Option<string>, q: Option<string>, fr: Option<string>)
    requires '?' !in a && '/' !in a && FieldOk(q)
    requires ep.Some? ==> StartsWith(ep, '/') && '?' !in ep.value
    ensures Hierarchical(Some(sc), "//" + a + Text(ep) + Print("?", EQuery, q), fr)
         == WithAuthority(URI(Some(sc), None, None, None, None, None, ep, ep, Enc(EQuery, q), fr), a)
  {
    hide WithAuthority, IndexOf, Encode, CString;
    var e := "//" + a + Text(ep);
    assert '?' !in e;
    CutQuery(e, q);
    hide Print, Enc;
    assert e[2..] == a + Text(ep);
    assert "//" <= e;
    CutPath(a, ep);
  }

  lemma CutPath(a: string, ep: Option<string>)
    requires '/' !in a && (ep.Some? ==> StartsWith(ep, '/'))
    ensures var rest := a + Text(ep);
      && IndexOf(rest, '/') == |a| && rest[..|a|] == a
      && (if |a| < |rest| then Some(rest[|a|..]) else None) == ep
  {
    IndexOfConcat(a, Text(ep), '/');
    assert (a + Text(ep))[|a|..] == Text(ep);
  }

  function HostPortText(h: string, p: Option<string>): string
    requires CString(h) && FieldOk(p)
  {
    Encode(Host, h) + Print(":", Port, p)
  }

  /** user[:password]@ as printed. */
  lemma UserInfoParsed(user: string, password: Option<string>)
    requires CString(user) && FieldOk(password)
    ensures var info := Encode(User, user) + Print(":", Password, password);
      var c := IndexOf(info, ':');
      && '@' !in info
      && info[..c] == Encode(User, user)
      && (if c < |info| then Some(info[c + 1..]) else None) == Enc(Password, password)
  {
    hide Encode, IndexOf;
    var e := Encode(User, user);
    EncodeAvoids(User, user, ':');
    EncodeAvoids(User, user, '@');
    if password.Some? {
      var f := Encode(Password, password.value);
      EncodeAvoids(Password, password.value, '@');
      assert e + (":" + f) == e + [':'] + f;
      Cut(e, ':', f);
    } else {
      assert e + [] == e;
      IndexOfAbsent(e, ':');
    }
  }

  lemma HostPortAvoids(h: string, p: Option<string>, c: char)
    requires CString(h) && FieldOk(p) && c in "/#@?"
    ensures c !in HostPortText(h, p)
  {
    EncodeAvoids(Host, h, c);
    if p.Some? { EncodeAvoids(Port, p.value, c); }
  }

  lemma AuthorityWithUser(v: URI, user: string, password: Option<string>, t: string)
    requires CString(user) && FieldOk(password) && v.password.None?
    ensures WithAuthority(v, Encode(User, user) + Print(":", Password, password) + ['@'] + t)
         == v.(user := Some(Encode(User, user)), password := Enc(Password, password),
               host := Some(HostPort(t).0), port := HostPort(t).1)
  {
    hide HostPort, Encode, IndexOf, Print, Enc;
    UserInfoParsed(user, password);
    Cut(Encode(User, user) + Print(":", Password, password), '@', t);
  }

  lemma AuthorityParsed(u: URI, v: URI)
    requires CStrings(u) && u.host.Some? && (u.password.Some? ==> u.user.Some?)
    requires v.user.None? && v.password.None?
    ensures var hp := HostPort(HostPortText(u.host.value, u.port));
      WithAuthority(v, PrintAuthority(u))
        == v.(user := Enc(User, u.user), password := Enc(Password, u.password), host := Some(hp.0), port := hp.1)
  {
    hide HostPort, Encode, IndexOf, WithAuthority, HostPortText, PrintAuthority;
    var t := HostPortText(u.host.value, u.port);
    AuthorityText(u);
    if u.user.Some? {
      AuthorityWithUser(v, u.user.value, u.password, t);
    } else {
      HostPortAvoids(u.host.value, u.port, '@');
      AuthorityWithoutUser(v, t);
    }
  }

  lemma AuthorityText(u: URI)
    requires CStrings(u) && u.host.Some? && (u.password.Some? ==> u.user.Some?)
    ensures PrintAuthority(u) == (if u.user.Some? then Encode(User, u.user.value) + Print(":", Password, u.password) + ['@'] else [])
      + HostPortText(u.host.value, u.port)
  {
    hide Encode;
  }

  lemma AuthorityWithoutUser(v: URI, t: string)
    requires '@' !in t && v.user.None? && v.password.None?
    ensures WithAuthority(v, [] + t) == v.(host := Some(HostPort(t).0), port := HostPort(t).1)
  {
    hide HostPort, IndexOf;
    assert [] + t == t;
    IndexOfAbsent(t, '@');
  }

  lemma AuthorityAvoids(u: URI, c: char)
    requires CStrings(u) && c in "/#?"
    ensures c !in PrintAuthority(u)
  {
    if u.user.Some? { EncodeAvoids(User, u.user.value, c); }
    if u.password.Some? { EncodeAvoids(Password, u.password.value, c); }
    if u.host.Some? { EncodeAvoids(Host, u.host.value, c); }
    if u.port.Some? { EncodeAvoids(Port, u.port.value, c); }
  }

  /** The host and port that can be told apart again. */
  predicate HostPortOk(h: string, p: Option<string>) {
    if p.Some? then p.value == [] || p.value[|p.value| - 1] != ']'
    else ':' !in h || h[|h| - 1] == ']'
  }

  /** A host and port survive exactly when HostPortOk; otherwise a port appears or
      disappears. */
  lemma HostPortParsed(h: string, p: Option<string>)
    requires CString(h) && FieldOk(p)
    ensures HostPortOk(h, p) ==> HostPort(HostPortText(h, p)) == (Encode(Host, h), Enc(Port, p))
    ensures !HostPortOk(h, p) ==> HostPort(HostPortText(h, p)).1.Some? != p.Some?
  {
    if p.Some? {
      PortParsed(h, p.value);
    } else {
      NoPortParsed(h);
    }
  }

  lemma PortParsed(h: string, p: string)
    requires CString(h) && CString(p)
    ensures HostPortOk(h, Some(p)) ==> HostPort(HostPortText(h, Some(p))) == (Encode(Host, h), Some(Encode(Port, p)))
    ensures !HostPortOk(h, Some(p)) ==> HostPort(HostPortText(h, Some(p))).1.None?
  {
    hide HostPort, Encode, Escaped, CString;
    var e, f := Encode(Host, h), Encode(Port, p);
    PortEnds(p);
    assert HostPortText(h, Some(p)) == e + ([':'] + f) == e + [':'] + f;
    HostPortCut(e, f);
  }

  /** Encoding keeps whether a port is empty and whether it ends in a bracket. */
  lemma PortEnds(p: string)
    requires CString(p)
    ensures var f := Encode(Port, p);
      && ':' !in f && (f == [] <==> p == [])
      && (p != [] ==> (f[|f| - 1] == ']' <==> p[|p| - 1] == ']'))
  {
    hide CString;
    EncodeAvoids(Port, p, ':');
    if p != [] { EncodeEndsInBracket(Port, p); }
  }

  /** A host and port in the text, with no colon in the port. */
  lemma HostPortCut(e: string, f: string)
    requires ':' !in f
    ensures var t := e + [':'] + f;
      HostPort(t) == if f != [] && f[|f| - 1] == ']' then (t, None) else (e, Some(f))
  {
    hide LastIndexOf;
    var t := e + [':'] + f;
    CutLast(e, ':', f);
    assert t[|t| - 1] == if f == [] then ':' else f[|f| - 1];
  }

  lemma NoPortParsed(h: string)
    requires CString(h)
    ensures HostPortOk(h, None) ==> HostPort(HostPortText(h, None)) == (Encode(Host, h), None)
    ensures !HostPortOk(h, None) ==> HostPort(HostPortText(h, None)).1.Some?
  {
    hide CString, LastIndexOf;
    var e := Encode(Host, h);
    EncodeKeeps(Host, h, ':');
    if h != [] { EncodeEndsInBracket(Host, h); }
    hide Encode, EncodeChar, Escaped;
    assert HostPortText(h, None) == e + [] == e;
    var k := LastIndexOf(e, ':');
    assert k < |e| ==> e[k] in e;
  }

  // ------------------------------------------------------------------------
  // The three layouts
  // ------------------------------------------------------------------------

  /** The fields as they stand in the printed string. */
  ghost function RawOf(u: URI, fr: Option<string>): URI
    requires CStrings(u)
  {
    URI(u.scheme, Enc(OpaquePart, u.opaquePart), Enc(User, u.user), Enc(Password, u.password),
        Enc(Host, u.host), Enc(Port, u.port), Enc(EPath, u.epath), Enc(EPath, u.epath), Enc(EQuery, u.equery), fr)
  }

  lemma EpathPrinted(ep: string)
    requires CString(ep) && ep != [] && '?' !in ep && '#' !in ep
    ensures var e := Encode(EPath, ep);
      && e != [] && '?' !in e && '#' !in e
      && (ep[0] == '/' <==> e[0] == '/')
      && ("//" <= ep <==> "//" <= e)
      && (NotAScheme(ep) ==> NotAScheme(e))
  {
    EncodeAvoids(EPath, ep, '?');
    EncodeAvoids(EPath, ep, '#');
    SlashesKept(ep);
    if NotAScheme(ep) { NotASchemeKept(ep); }
  }

  lemma SlashesKept(ep: string)
    requires CString(ep)
    ensures var e := Encode(EPath, ep);
      && (ep != [] ==> e != [] && (ep[0] == '/' <==> e[0] == '/'))
      && ("//" <= ep <==> "//" <= e)
  {
    var e := Encode(EPath, ep);
    if ep != [] && ep[0] == '/' {
      assert e == ['/'] + Encode(EPath, ep[1..]);
      assert e[1..] == Encode(EPath, ep[1..]);
      assert "//" <= ep <==> |ep| > 1 && ep[1..][0] == '/';
      assert "//" <= e <==> |e| > 1 && e[1..][0] == '/';
      if ep[1..] != [] { EncodeFirst(EPath, ep[1..]); }
    } else if ep != [] {
      EncodeFirst(EPath, ep);
    }
  }

  lemma {:induction false} NotASchemeKept(ep: string)
    requires CString(ep) && NotAScheme(ep)
    ensures NotAScheme(Encode(EPath, ep))
  {
    if ep != [] {
      EncodeFirst(EPath, ep);
      if SchemeChar(ep[0]) {
        var e := Encode(EPath, ep[1..]);
        assert Encode(EPath, ep) == [ep[0]] + e;
        NotASchemeKept(ep[1..]);
        hide Encode, CString;
        assert ([ep[0]] + e)[1..] == e;
      }
    }
  }

  /** A relative URI. */
  lemma RelativeParsed(u: URI, fr: Option<string>)
    requires CStrings(u) && Shape(u) && u.scheme.None?
    ensures ParseMain(FormatMain(u), fr) == RawOf(u, fr)
  {
    hide Encode, SchemeLen, IndexOf, Hierarchical;
    var q := Print("?", EQuery, u.equery);
    var e := Text(Enc(EPath, u.epath));
    RelativeFormat(u);
    if u.epath.Some? { EpathPrinted(u.epath.value); }
    assert NotAScheme(e + q) by { RelativeStaysRelative(e, q); }
    if u.epath.Some? {
      PlainPathParsed(None, e, u.equery, fr);
    } else {
      NoPathParsed(u.equery, fr);
      assert e + q == [] + q;
    }
  }

  lemma NoPathParsed(q: Option<string>, fr: Option<string>)
    requires FieldOk(q)
    ensures Hierarchical(None, [] + Print("?", EQuery, q), fr)
         == URI(None, None, None, None, None, None, None, None, Enc(EQuery, q), fr)
  {
    hide Encode, IndexOf;
    CutQuery([], q);
  }

  lemma NoAuthorityPrintsNothing(u: URI)
    requires CStrings(u) && NoAuthority(u)
    ensures PrintAuthority(u) == []
  {
  }

  lemma RelativeFormat(u: URI)
    requires CStrings(u) && NoAuthority(u) && u.scheme.None? && u.opaquePart.None?
    requires u.epath.None? ==> u.path.None?
    ensures FormatMain(u) == Text(Enc(EPath, u.epath)) + Print("?", EQuery, u.equery)
  {
    hide Encode, CString;
    NoAuthorityPrintsNothing(u);
    hide PrintAuthority;
    var q, e := Print("?", EQuery, u.equery), Text(Enc(EPath, u.epath));
    assert PrintPath(u) == e;
    hide Print, PrintPath;
    assert [] + [] + [] + e + q == e + q;
  }

  lemma PathFormat(u: URI)
    requires CStrings(u) && NoAuthority(u) && u.scheme.Some? && u.opaquePart.None? && u.epath.Some?
    requires Encode(Scheme, u.scheme.value) == u.scheme.value
    ensures FormatMain(u) == u.scheme.value + ":" + (Encode(EPath, u.epath.value) + Print("?", EQuery, u.equery))
  {
    hide Encode, CString;
    NoAuthorityPrintsNothing(u);
    hide PrintAuthority;
    var q, e, c := Print("?", EQuery, u.equery), Encode(EPath, u.epath.value), u.scheme.value + ":";
    assert PrintScheme(u) == c;
    assert PrintPath(u) == e;
    assert Print("", OpaquePart, u.opaquePart) == [];
    hide Print, PrintPath, PrintScheme;
    assert c + [] + [] + e + q == c + (e + q);
  }

  lemma OpaqueFormat(u: URI)
    requires CStrings(u) && NoAuthority(u) && u.scheme.Some? && u.opaquePart.Some?
    requires u.epath.None? && u.path.None? && u.equery.None?
    requires Encode(Scheme, u.scheme.value) == u.scheme.value
    ensures FormatMain(u) == u.scheme.value + ":" + Encode(OpaquePart, u.opaquePart.value)
  {
    hide Encode, CString;
    NoAuthorityPrintsNothing(u);
    hide PrintAuthority;
    var o, c := Encode(OpaquePart, u.opaquePart.value), u.scheme.value + ":";
    assert PrintScheme(u) == c;
    assert PrintPath(u) == [];
    assert Print("", OpaquePart, u.opaquePart) == o;
    assert Print("?", EQuery, u.equery) == [];
    hide Print, PrintPath, PrintScheme;
    assert c + o + [] + [] + [] == c + o;
  }

  lemma {:induction false} RelativeStaysRelative(e: string, q: string)
    requires NotAScheme(e) && (q == [] || q[0] == '?')
    ensures NotAScheme(e + q)
  {
    if e == [] {
      assert e + q == q;
    } else if SchemeChar(e[0]) {
      assert (e + q)[1..] == e[1..] + q;
      RelativeStaysRelative(e[1..], q);
    }
  }

  lemma SchemeParsed(sc: string, rest: string)
    requires SchemeOk(sc)
    ensures var raw := sc + ":" + rest;
      SchemeLen(raw) == |sc| && |sc| < |raw| && raw[|sc|] == ':' && raw[..|sc|] == sc && raw[|sc| + 1..] == rest
  {
    assert sc + ":" + rest == sc + (":" + rest);
    SchemeLenConcat(sc, ":" + rest);
  }

  /** An absolute URI with a path but no authority. */
  lemma PathParsed(u: URI, fr: Option<string>)
    requires CStrings(u) && Shape(u) && u.scheme.Some? && u.opaquePart.None? && u.host.None?
    ensures ParseMain(FormatMain(u), fr) == RawOf(u, fr)
  {
    hide Encode, SchemeLen, Hierarchical, FormatMain, NotAScheme;
    var e := Encode(EPath, u.epath.value);
    var rest := e + Print("?", EQuery, u.equery);
    EpathPrinted(u.epath.value);
    SchemeEncodesToItself(u.scheme.value);
    PathFormat(u);
    SchemeParsed(u.scheme.value, rest);
    PlainPathParsed(u.scheme, e, u.equery, fr);
  }

  /** An absolute URI with an authority: everything is recovered, except that host
      and port are whatever HostPort makes of them. */
  lemma HostParsed(u: URI, fr: Option<string>)
    requires CStrings(u) && Shape(u) && u.scheme.Some? && u.opaquePart.None? && u.host.Some?
    ensures var hp := HostPort(HostPortText(u.host.value, u.port));
      ParseMain(FormatMain(u), fr) == RawOf(u, fr).(host := Some(hp.0), port := hp.1)
  {
    SchemeEncodesToItself(u.scheme.value);
    hide Encode, HostPort, WithAuthority, HostPortText, SchemeLen, NotAScheme, Hierarchical, FormatMain;
    var ep := Enc(EPath, u.epath);
    var a := PrintAuthority(u);
    AuthorityAvoids(u, '/');
    AuthorityAvoids(u, '?');
    if u.epath.Some? { EpathPrinted(u.epath.value); }
    var rest := "//" + a + Text(ep) + Print("?", EQuery, u.equery);
    assert FormatMain(u) == u.scheme.value + ":" + rest by {
      HostFormat(u);
    }
    SchemeParsed(u.scheme.value, rest);
    NetPathParsed(u.scheme.value, a, ep, u.equery, fr);
    AuthorityParsed(u, URI(u.scheme, None, None, None, None, None, ep, ep, Enc(EQuery, u.equery), fr));
  }

  lemma HostFormat(u: URI)
    requires CStrings(u) && Shape(u) && u.scheme.Some? && u.opaquePart.None? && u.host.Some?
    requires Encode(Scheme, u.scheme.value) == u.scheme.value
    ensures FormatMain(u) == u.scheme.value + ":" +
      ("//" + PrintAuthority(u) + Text(Enc(EPath, u.epath)) + Print("?", EQuery, u.equery))
  {
    hide Encode, PrintAuthority;
    var q, a, e := Print("?", EQuery, u.equery), PrintAuthority(u), Text(Enc(EPath, u.epath));
    assert PrintScheme(u) == u.scheme.value + ":" + "//";
    assert PrintPath(u) == e;
    assert FormatMain(u) == u.scheme.value + ":" + "//" + [] + a + e + q;
  }

  lemma OpaqueFirst(s: string)
    requires CString(s)
    ensures var o := Encode(OpaquePart, s);
      o != [] && o[0] == '/' <==> s != [] && s[0] == '/'
  {
    if s != [] { EncodeFirst(OpaquePart, s); }
  }

  lemma HierarchicalIsNotOpaque(sc: Option<string>, hier: string, fr: Option<string>)
    ensures Hierarchical(sc, hier, fr).opaquePart.None?
  {
    hide HostPort, IndexOf;
  }

  /** An absolute opaque URI is recovered unless the opaque part looks hierarchical. */
  lemma OpaqueParsed(u: URI, fr: Option<string>)
    requires CStrings(u) && Shape(u) && u.scheme.Some? && u.opaquePart.Some?
    ensures StartsWith(u.opaquePart, '/') ==> ParseMain(FormatMain(u), fr).opaquePart.None?
    ensures !StartsWith(u.opaquePart, '/') ==> ParseMain(FormatMain(u), fr) == RawOf(u, fr)
  {
    hide Encode, SchemeLen, Hierarchical, FormatMain, CString;
    var o := Encode(OpaquePart, u.opaquePart.value);
    OpaqueFirst(u.opaquePart.value);
    SchemeEncodesToItself(u.scheme.value);
    OpaqueFormat(u);
    SchemeParsed(u.scheme.value, o);
    if StartsWith(u.opaquePart, '/') {
      HierarchicalIsNotOpaque(u.scheme, o, fr);
    }
  }

  // ------------------------------------------------------------------------
  // The round trip
  // ------------------------------------------------------------------------

  lemma MainHasNoHash(u: URI)
    requires CStrings(u) && Shape(u)
    ensures '#' !in FormatMain(u)
  {
    assert u.epath.None? ==> u.path.None?;
    hide NotAScheme, DecodeField;
    if u.scheme.Some? { EncodeAvoids(Scheme, u.scheme.value, '#'); }
    if u.opaquePart.Some? { EncodeAvoids(OpaquePart, u.opaquePart.value, '#'); }
    AuthorityAvoids(u, '#');
    if u.epath.Some? { EncodeAvoids(EPath, u.epath.value, '#'); }
    if u.equery.Some? { EncodeAvoids(EQuery, u.equery.value, '#'); }
    hide Encode, CString, PrintAuthority;
    assert '#' !in PrintScheme(u);
    assert '#' !in Print("", OpaquePart, u.opaquePart);
    assert '#' !in PrintPath(u);
    assert '#' !in Print("?", EQuery, u.equery);
  }

  /** The fragment that the parser finds in "#" + e. */
  function FragmentFound(e: string): Option<string> {
    var m := FindParams("#" + e);
    if m == 0 then None else Some(e[..m - 1])
  }

  lemma FragmentParsed(u: URI)
    requires CStrings(u) && Shape(u)
    ensures ParseRaw(Format(u)) == ParseMain(FormatMain(u),
      if u.efragment.Some? then FragmentFound(Encode(EFragment, u.efragment.value)) else None)
  {
    MainHasNoHash(u);
    hide Encode, ParseMain, FormatMain, Shape, CString, FindParams;
    var a := FormatMain(u);
    if u.efragment.Some? {
      FragmentCut(a, Encode(EFragment, u.efragment.value));
    } else {
      assert Format(u) == a;
      NoFragment(a);
    }
  }

  lemma NoFragment(a: string)
    requires '#' !in a
    ensures FindParams(a) == |a| && a[..|a|] == a && IndexOf(a, '#') == |a|
  {
    assert a + [] == a;
    FindParamsConcat(a, []);
    IndexOfAbsent(a, '#');
  }

  lemma FragmentCut(a: string, e: string)
    requires '#' !in a
    ensures ParseRaw(a + ("#" + e)) == ParseMain(a, FragmentFound(e))
  {
    hide ParseMain, FindParams;
    var s := a + ("#" + e);
    var m := FindParams("#" + e);
    FindParamsConcat(a, "#" + e);
    if m == 0 {
      assert s[..|a|] == a && a[..|a|] == a;
      IndexOfAbsent(a, '#');
    } else {
      assert s[..|a| + m] == a + ['#'] + e[..m - 1];
      Cut(a, '#', e[..m - 1]);
    }
  }

  ghost predicate SevenBitField(f: Option<string>) {
    f.Some? ==> SevenBit(f.value)
  }

  ghost predicate VisibleField(f: Option<string>) {
    f.Some? ==> Visible(f.value)
  }

  /** A fragment that does not open a parameter list. */
  predicate NoParams(fr: string) {
    FindParams("#" + fr) == |fr| + 1
  }

  /** The URIs that survive being printed and parsed: laid out as the parser lays
      them out, the decoded fields 7-bit, the encoded ones visible, an opaque part
      that does not look like a path, a host and port that can be told apart, and
      no parameter list marker in the fragment. */
  ghost predicate Canonical(u: URI) {
    && Shape(u)
    && SevenBitField(u.opaquePart) && SevenBitField(u.user) && SevenBitField(u.password)
    && SevenBitField(u.host) && SevenBitField(u.port)
    && VisibleField(u.epath) && VisibleField(u.equery)
    && (u.efragment.Some? ==> Visible(u.efragment.value) && NoParams(u.efragment.value))
    && !StartsWith(u.opaquePart, '/')
    && (u.host.Some? ==> HostPortOk(u.host.value, u.port))
  }

  lemma FragmentExact(fr: string)
    requires CString(fr)
    ensures FragmentFound(Encode(EFragment, fr)) == Some(fr) <==> Visible(fr) && NoParams(fr)
  {
    var e := Encode(EFragment, fr);
    var m := FindParams("#" + e);
    VisiblePrefix(EFragment, fr, if m == 0 then 0 else m - 1);
  }

  lemma FieldDecoded(f: Field, s: Option<string>)
    requires FieldOk(s) && !AlreadyEncoded(f)
    ensures DecodeField(Enc(f, s)) == s <==> SevenBitField(s)
  {
    hide Decode, Encode, CStr;
    if s.Some? { DecodeEncodeExact(f, s.value); }
  }

  lemma FieldKept(f: Field, s: Option<string>)
    requires FieldOk(s) && AlreadyEncoded(f)
    ensures Enc(f, s) == s <==> VisibleField(s)
  {
    hide Encode;
    if s.Some? {
      var e := Encode(f, s.value);
      VisiblePrefix(f, s.value, |e|);
      assert e[..|e|] == e;
    }
  }

  /** Decoding the raw fields gives the URI back, fragment aside, exactly when its
      characters survive. */
  lemma RawDecodes(u: URI, fr: Option<string>)
    requires CStrings(u) && Shape(u)
    ensures DecodeFields(RawOf(u, fr)) == u.(efragment := fr) <==>
      && SevenBitField(u.opaquePart) && SevenBitField(u.user) && SevenBitField(u.password)
      && SevenBitField(u.host) && SevenBitField(u.port)
      && VisibleField(u.epath) && VisibleField(u.equery)
  {
    if u.scheme.Some? { SchemeDecodesToItself(u.scheme.value); }
    FieldDecoded(OpaquePart, u.opaquePart);
    FieldDecoded(User, u.user);
    FieldDecoded(Password, u.password);
    FieldDecoded(Host, u.host);
    FieldDecoded(Port, u.port);
    FieldKept(EPath, u.epath);
    FieldKept(EQuery, u.equery);
    hide CString, SevenBit, Visible, Layout, Encode, Decode, CStr;
  }

  /** The layouts put together: the fields found in the printed string, or a sign
      that the round trip has failed. */
  lemma PrintedParsed(u: URI, fr: Option<string>)
    requires CStrings(u) && Shape(u)
    ensures (u.opaquePart.Some? && StartsWith(u.opaquePart, '/'))
        ==> ParseMain(FormatMain(u), fr).opaquePart.None?
    ensures (u.host.Some? && !HostPortOk(u.host.value, u.port))
        ==> ParseMain(FormatMain(u), fr).port.Some? != u.port.Some?
    ensures !StartsWith(u.opaquePart, '/') && (u.host.Some? ==> HostPortOk(u.host.value, u.port))
        ==> ParseMain(FormatMain(u), fr) == RawOf(u, fr)
  {
    hide ParseMain, FormatMain, HostPortText, HostPort, Encode, CString, NotAScheme, SchemeOk;
    if u.scheme.None? {
      RelativeParsed(u, fr);
    } else if u.opaquePart.Some? {
      OpaqueParsed(u, fr);
    } else if u.host.Some? {
      HostParsed(u, fr);
      HostPortParsed(u.host.value, u.port);
    } else {
      PathParsed(u, fr);
    }
  }

  /** Printing and parsing gives back every field of a URI exactly when it is
      canonical. */
  lemma ParseFormat(u: URI)
    requires CStrings(u)
    ensures Parse(Format(u)) == u <==> Canonical(u)
  {
    hide Encode, CString, Layout, ParseMain, FormatMain, FragmentFound, HostPortOk, NoParams, SevenBit, Visible;
    ParseHasShape(Format(u));
    if Shape(u) {
      var fr := if u.efragment.Some? then FragmentFound(Encode(EFragment, u.efragment.value)) else None;
      FragmentParsed(u);
      if u.efragment.Some? { FragmentExact(u.efragment.value); }
      PrintedParsed(u, fr);
      RawDecodes(u, fr);
      hide Shape, RawOf;
      var raw := ParseMain(FormatMain(u), fr);
      assert Parse(Format(u)) == DecodeFields(raw);
      FragmentUntouched(u, fr);
    }
  }

  lemma FragmentUntouched(u: URI, fr: Option<string>)
    requires CStrings(u) && Shape(u)
    ensures ParseMain(FormatMain(u), fr).efragment == fr
  {
    hide Encode, CString, Layout, FormatMain, HostPort, IndexOf, SchemeLen;
  }

  lemma {:induction false} DecodeBytes(s: string)
    requires CString(s)
    ensures forall i :: 0 <= i < |Decode(s)| ==> Decode(s)[i] as int < 256
    decreases |s|
  {
    if s != [] {
      if s[0] == '%' {
        DecodeBytes(s[1 + Escape(s[1..]).1..]);
      } else {
        DecodeBytes(s[1..]);
      }
    }
  }

  lemma {:induction false} CStrIsCString(s: string)
    requires forall i :: 0 <= i < |s| ==> s[i] as int < 256
    ensures CString(CStr(s))
  {
    if s != [] && s[0] != NUL { CStrIsCString(s[1..]); }
  }

  lemma FieldStaysCString(f: Option<string>)
    requires FieldOk(f)
    ensures FieldOk(DecodeField(f))
  {
    if f.Some? {
      DecodeBytes(f.value);
      CStrIsCString(Decode(f.value));
    }
  }

  /** A cut leaves two C strings. */
  lemma CutCString(s: string, k: nat)
    requires CString(s) && k <= |s|
    ensures CString(s[..k]) && CString(s[k..]) && (k < |s| ==> CString(s[k + 1..]))
  {
  }

  lemma AuthorityCStrings(u: URI, a: string)
    requires CStrings(u) && CString(a)
    ensures CStrings(WithAuthority(u, a))
  {
    hide CString, IndexOf, LastIndexOf;
    var k := IndexOf(a, '@');
    CutCString(a, k);
    CutCString(a[..k], IndexOf(a[..k], ':'));
    var hp := if k < |a| then a[k + 1..] else a;
    CutCString(hp, LastIndexOf(hp, ':'));
  }

  lemma HierarchicalCStrings(scheme: Option<string>, hier: string, fr: Option<string>)
    requires FieldOk(scheme) && CString(hier) && FieldOk(fr)
    ensures CStrings(Hierarchical(scheme, hier, fr))
  {
    hide CString, IndexOf, WithAuthority;
    var q := IndexOf(hier, '?');
    CutCString(hier, q);
    var ep := hier[..q];
    if |ep| >= 2 {
      CutCString(ep, 2);
      var rest := ep[2..];
      var k := IndexOf(rest, '/');
      CutCString(rest, k);
      var path := if k < |rest| then Some(rest[k..]) else None;
      var u := URI(scheme, None, None, None, None, None, path, path, if q < |hier| then Some(hier[q + 1..]) else None, fr);
      AuthorityCStrings(u, rest[..k]);
    }
  }

  lemma RawCStrings(s: string)
    requires CString(s)
    ensures CStrings(ParseRaw(s))
  {
    hide CString, IndexOf, SchemeLen, FindParams, Hierarchical;
    CutCString(s, FindParams(s));
    var t := s[..FindParams(s)];
    var k := IndexOf(t, '#');
    CutCString(t, k);
    var raw, fr := t[..k], if k < |t| then Some(t[k + 1..]) else None;
    var n := SchemeLen(raw);
    CutCString(raw, n);
    HierarchicalCStrings(None, raw, fr);
    if n < |raw| { HierarchicalCStrings(Some(raw[..n]), raw[n + 1..], fr); }
  }

  /** Parsing a C string yields C strings. */
  lemma ParsedCStrings(s: string)
    requires CString(s)
    ensures CStrings(Parse(s))
  {
    hide ParseRaw, DecodeField, CString;
    RawCStrings(s);
    var u := ParseRaw(s);
    assert Parse(s) == DecodeFields(u);
    FieldStaysCString(u.scheme);
    FieldStaysCString(u.opaquePart);
    FieldStaysCString(u.user);
    FieldStaysCString(u.password);
    FieldStaysCString(u.host);
    FieldStaysCString(u.port);
    FieldStaysCString(u.path);
  }

  /** Parsing is idempotent through printing for exactly the strings whose parse
      is canonical. */
  lemma ReparseStable(s: string)
    requires CString(s)
    ensures CStrings(Parse(s))
    ensures Parse(Format(Parse(s))) == Parse(s) <==> Canonical(Parse(s))
  {
    ParsedCStrings(s);
    ParseFormat(Parse(s));
  }

  /** The pathological host name that the escape table lets through. */
  lemma ColonInHostIsLost()
    ensures var u := URI(Some("http"), None, None, None, Some("a:b"), None, None, None, None, None);
      CStrings(u) && Shape(u) && Parse(Format(u)) != u
  {
    hide Parse, Format;
    var u := URI(Some("http"), None, None, None, Some("a:b"), None, None, None, None, None);
    assert ':' == "a:b"[1];
    ParseFormat(u);
  }
}
