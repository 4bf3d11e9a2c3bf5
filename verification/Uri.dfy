/** Splitting a URI into its parts (section 3 of RFC 3986) and printing it back,
    as functions on strings. */
module Uri {
  import opened CLib
  import opened UriCodec

  datatype URI = URI(
    scheme: Option<string>,
    opaquePart: Option<string>,
    user: Option<string>,
    password: Option<string>,
    host: Option<string>,
    port: Option<string>,
    path: Option<string>,
    epath: Option<string>,
    equery: Option<string>,
    efragment: Option<string>)

  // ------------------------------------------------------------------------
  // String searches
  // ------------------------------------------------------------------------

  /** strrchr(): the last position of `c`, or the length. */
  function LastIndexOf(s: string, c: char): (n: nat)
    ensures n <= |s|
    ensures n < |s| ==> s[n] == c && forall i :: n < i < |s| ==> s[i] != c
    ensures n == |s| ==> c !in s
  {
    if s == [] then 0
    else
      var n := LastIndexOf(s[1..], c);
      if n < |s| - 1 then 1 + n else if s[0] == c then 0 else |s|
  }

  const PARAMS := "##params"

  /** The marker of a parameter list is at `i`. */
  predicate ParamsAt(s: string, i: nat)
    requires i <= |s|
  {
    PARAMS <= s[i..]
  }

  /** strstr() for the marker: its first position, or the length. */
  function FindParams(s: string): (n: nat)
    ensures n <= |s|
    ensures n < |s| ==> ParamsAt(s, n)
    ensures forall i: nat :: i < n ==> !ParamsAt(s, i)
  {
    if s == [] || PARAMS <= s then 0
    else
      assert forall i: nat :: 1 <= i <= |s| ==> s[i..] == s[1..][i - 1..];
      assert forall i: nat :: 1 <= i <= |s| ==> (ParamsAt(s, i) <==> ParamsAt(s[1..], i - 1));
      1 + FindParams(s[1..])
  }

  predicate SchemeChar(c: char) {
    IsAlpha(c) || c == '-' || c == '_'
  }

  /** The run of possible scheme characters at the start. */
  function SchemeLen(s: string): (n: nat)
    ensures n <= |s|
    ensures forall i :: 0 <= i < n ==> SchemeChar(s[i])
    ensures n < |s| ==> !SchemeChar(s[n])
  {
    if s != [] && SchemeChar(s[0]) then 1 + SchemeLen(s[1..]) else 0
  }

  // ------------------------------------------------------------------------
  // Parsing
  // ------------------------------------------------------------------------

  /** host[:port], cut at the last colon unless the whole ends in `]`. */
  function HostPort(hp: string): (r: (string, Option<string>)) {
    var k := LastIndexOf(hp, ':');
    if k < |hp| && hp[|hp| - 1] != ']' then (hp[..k], Some(hp[k + 1..])) else (hp, None)
  }

  /** [user[:password]@]host[:port]. */
  function WithAuthority(u: URI, a: string): URI {
    var k := IndexOf(a, '@');
    var (host, port) := HostPort(if k < |a| then a[k + 1..] else a);
    if k < |a| then
      var info := a[..k];
      var c := IndexOf(info, ':');
      u.(user := Some(info[..c]),
         password := if c < |info| then Some(info[c + 1..]) else None,
         host := Some(host), port := port)
    else u.(host := Some(host), port := port)
  }

  /** The hierarchical part: query, then net path or plain path. */
  function Hierarchical(scheme: Option<string>, hier: string, efragment: Option<string>): URI {
    var q := IndexOf(hier, '?');
    var ep := hier[..q];
    var u := URI(scheme, None, None, None, None, None, None, None,
                 if q < |hier| then Some(hier[q + 1..]) else None, efragment);
    if ep == [] then u
    else if scheme.Some? && "//" <= ep then
      var rest := ep[2..];
      var k := IndexOf(rest, '/');
      var path := if k < |rest| then Some(rest[k..]) else None;
      WithAuthority(u.(path := path, epath := path), rest[..k])
    else u.(path := Some(ep), epath := Some(ep))
  }

  /** Everything but the fragment: scheme, then opaque or hierarchical. */
  function ParseMain(raw: string, efragment: Option<string>): URI {
    var n := SchemeLen(raw);
    if n < |raw| && raw[n] == ':' then
      var rest := raw[n + 1..];
      if rest != [] && rest[0] == '/' then Hierarchical(Some(raw[..n]), rest, efragment)
      else URI(Some(raw[..n]), Some(rest), None, None, None, None, None, None, None, efragment)
    else Hierarchical(None, raw, efragment)
  }

  /** The fields as they stand in the string, before decoding. */
  function ParseRaw(s: string): URI {
    var t := s[..FindParams(s)];
    var k := IndexOf(t, '#');
    ParseMain(t[..k], if k < |t| then Some(t[k + 1..]) else None)
  }

  function DecodeField(f: Option<string>): Option<string> {
    if f.Some? then Some(CStr(Decode(f.value))) else None
  }

  function DecodeFields(u: URI): URI {
    u.(scheme := DecodeField(u.scheme), opaquePart := DecodeField(u.opaquePart),
       user := DecodeField(u.user), password := DecodeField(u.password),
       host := DecodeField(u.host), port := DecodeField(u.port), path := DecodeField(u.path))
  }

  /** parse_uri(). */
  function Parse(s: string): URI {
    DecodeFields(ParseRaw(s))
  }

  // ------------------------------------------------------------------------
  // Formatting
  // ------------------------------------------------------------------------

  ghost predicate FieldOk(f: Option<string>) {
    f.Some? ==> CString(f.value)
  }

  /** Every field is a C string. */
  ghost predicate CStrings(u: URI) {
    && FieldOk(u.scheme) && FieldOk(u.opaquePart) && FieldOk(u.user) && FieldOk(u.password)
    && FieldOk(u.host) && FieldOk(u.port) && FieldOk(u.path)
    && FieldOk(u.epath) && FieldOk(u.equery) && FieldOk(u.efragment)
  }

  function Print(prefix: string, f: Field, s: Option<string>): string
    requires FieldOk(s)
  {
    if s.Some? then prefix + Encode(f, s.value) else []
  }

  /** The authority as printed. */
  function PrintAuthority(u: URI): string
    requires CStrings(u)
  {
    Print("", User, u.user) + Print(":", Password, u.password) +
    Print(if u.user.Some? then "@" else "", Host, u.host) + Print(":", Port, u.port)
  }

  /** The path as printed: the encoded path if there is one. */
  function PrintPath(u: URI): string
    requires CStrings(u)
  {
    if u.epath.Some? then Print("", EPath, u.epath) else Print("", Path, u.path)
  }

  function PrintScheme(u: URI): string
    requires CStrings(u)
  {
    if u.scheme.Some? then Print("", Scheme, u.scheme) + ":" + (if u.host.Some? then "//" else "") else []
  }

  /** Everything but the fragment. */
  function FormatMain(u: URI): string
    requires CStrings(u)
  {
    PrintScheme(u) + Print("", OpaquePart, u.opaquePart) + PrintAuthority(u) + PrintPath(u) +
    Print("?", EQuery, u.equery)
  }

  /** format_uri(). */
  function Format(u: URI): string
    requires CStrings(u)
  {
    FormatMain(u) + Print("#", EFragment, u.efragment)
  }
}
