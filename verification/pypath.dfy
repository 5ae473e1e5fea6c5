/** The path and URL helpers the request handler uses to name its files:
    Windows `os.path` (`basename`, `splitext`, `join`) and the path
    component of `urllib.parse.urlparse`. Drive letters and UNC prefixes are
    not modelled. */
module PyPath {
  import opened Common
  import opened PyText

  /** The separators of Windows paths. */
  predicate IsSep(c: char) { c == '/' || c == '\\' }

  predicate NoSep(s: string) { forall i :: 0 <= i < |s| ==> !IsSep(s[i]) }

  /** Index of the last separator in `p`, or -1. */
  function LastSep(p: string): (r: int)
    ensures -1 <= r < |p|
    ensures r >= 0 ==> IsSep(p[r])
    ensures forall j :: r < j < |p| ==> !IsSep(p[j])
  {
    if |p| == 0 then -1
    else if IsSep(p[|p| - 1]) then |p| - 1
    else LastSep(p[..|p| - 1])
  }

  /** `os.path.basename(p)`: what follows the last separator. */
  function Basename(p: string): (r: string)
    ensures |r| <= |p| && r == p[|p| - |r|..]
    ensures NoSep(r)
    ensures |r| < |p| ==> IsSep(p[|p| - |r| - 1])
  {
    p[LastSep(p) + 1..]
  }

  /** Text without separators appended after the last one does not move it. */
  lemma {:induction false} LastSepAppend(p: string, s: string)
    requires NoSep(s)
    ensures LastSep(p + s) == LastSep(p)
    decreases |s|
  {
    if |s| > 0 {
      assert (p + s)[..|p + s| - 1] == p + s[..|s| - 1];
      assert !IsSep((p + s)[|p + s| - 1]);
      LastSepAppend(p, s[..|s| - 1]);
    } else {
      assert p + s == p;
    }
  }

  /** Appending text without separators extends the base name by it. */
  lemma BasenameAppend(p: string, s: string)
    requires NoSep(s)
    ensures Basename(p + s) == Basename(p) + s
  {
    LastSepAppend(p, s);
    assert (p + s)[LastSep(p) + 1..] == p[LastSep(p) + 1..] + s;
  }

  /** Index of the last `c` in `s`, or -1. */
  function LastIndex(s: string, c: char): (r: int)
    ensures -1 <= r < |s|
    ensures r >= 0 ==> s[r] == c
    ensures forall j :: r < j < |s| ==> s[j] != c
  {
    if |s| == 0 then -1
    else if s[|s| - 1] == c then |s| - 1
    else LastIndex(s[..|s| - 1], c)
  }

  predicate AllDots(s: string) { forall k :: 0 <= k < |s| ==> s[k] == '.' }

  /** `os.path.splitext(p)[1]`: from the last dot of the base name on, unless
      that dot is part of the name's leading run of dots. */
  function Extension(p: string): string
  {
    NameExtension(Basename(p))
  }

  /** The extension is empty or a dot followed by text without dots or
      separators, and it ends the path. */
  lemma ExtensionShape(p: string)
    ensures var r := Extension(p);
            && (r == "" || (r[0] == '.' && '.' !in r[1..] && NoSep(r)))
            && |r| <= |p| && r == p[|p| - |r|..]
  {
    var name := Basename(p);
    SuffixShape(p, name, NameExtension(name));
  }

  /** The shape of an extension carries over from the base name to the
      path. */
  lemma SuffixShape(p: string, name: string, r: string)
    requires |name| <= |p| && name == p[|p| - |name|..] && NoSep(name)
    requires r == "" || (r[0] == '.' && '.' !in r[1..])
    requires |r| <= |name| && r == name[|name| - |r|..]
    requires NoSep(name) ==> NoSep(r)
    ensures r == "" || (r[0] == '.' && '.' !in r[1..] && NoSep(r))
    ensures |r| <= |p| && r == p[|p| - |r|..]
  {
    SuffixOfSuffix(p, name, r);
  }

  /** The extension of a base name. */
  function NameExtension(name: string): (r: string)
    ensures r == "" || (r[0] == '.' && '.' !in r[1..])
    ensures |r| <= |name| && r == name[|name| - |r|..]
    ensures NoSep(name) ==> NoSep(r)
  {
    var d := LastIndex(name, '.');
    if d > 0 && !AllDots(name[..d]) then
      AfterLast(name, d, '.');
      name[d..]
    else ""
  }

  /** What follows the last `c` holds no `c`. */
  lemma AfterLast(s: string, d: int, c: char)
    requires 0 <= d < |s| && s[d] == c
    requires forall j :: d < j < |s| ==> s[j] != c
    ensures s[d..][0] == c && c !in s[d..][1..]
  {
    assert s[d..][1..] == s[d + 1..];
  }

  /** A suffix of a suffix is a suffix. */
  lemma SuffixOfSuffix(p: string, s: string, r: string)
    requires |s| <= |p| && s == p[|p| - |s|..]
    requires |r| <= |s| && r == s[|s| - |r|..]
    ensures r == p[|p| - |r|..]
  {
  }

  /** Text without `c` appended after the last `c` does not move it. */
  lemma {:induction false} LastIndexAppend(x: string, y: string, c: char)
    requires c !in y
    ensures LastIndex(x + y, c) == LastIndex(x, c)
    decreases |y|
  {
    if |y| > 0 {
      assert (x + y)[..|x + y| - 1] == x + y[..|y| - 1];
      assert (x + y)[|x + y| - 1] == y[|y| - 1] != c;
      assert LastIndex(x + y, c) == LastIndex(x + y[..|y| - 1], c);
      assert c !in y[..|y| - 1];
      LastIndexAppend(x, y[..|y| - 1], c);
    } else {
      assert x + y == x;
    }
  }

  /** A dot followed by text without dots is the last dot. */
  lemma LastIndexAfterDot(x: string, y: string)
    requires |x| > 0 && x[|x| - 1] == '.' && '.' !in y
    ensures LastIndex(x + y, '.') == |x| - 1
  {
    LastIndexAppend(x, y, '.');
  }

  /** The extension's dot is the last dot of `b + ext`. */
  lemma LastDotOfSuffix(b: string, ext: string)
    requires |ext| > 0 && ext[0] == '.' && '.' !in ext[1..]
    ensures LastIndex(b + ext, '.') == |b|
  {
    var tail := ext[1..];
    assert b + ext == (b + ".") + tail;
    LastIndexAfterDot(b + ".", tail);
  }

  /** A name ending in `stem-char + ext` has exactly that extension. */
  lemma ExtensionOfSuffix(p: string, ext: string)
    requires |p| > 0 && !IsSep(p[|p| - 1]) && p[|p| - 1] != '.'
    requires |ext| > 0 && ext[0] == '.' && '.' !in ext[1..] && NoSep(ext)
    ensures Extension(p + ext) == ext
  {
    BasenameAppend(p, ext);
    var b := Basename(p);
    assert |b| > 0 && b[|b| - 1] == p[|p| - 1];
    var name := b + ext;
    LastDotOfSuffix(b, ext);
    assert name[..|b|] == b;
    assert !AllDots(name[..|b|]) by { assert name[..|b|][|b| - 1] != '.'; }
    assert name[|b|..] == ext;
  }

  /** `os.path.join(a, b)` for a `b` without a drive: an absolute `b` wins,
      otherwise one backslash is inserted unless `a` is empty or already ends
      in a separator. */
  function PathJoin(a: string, b: string): string
  {
    if |b| > 0 && IsSep(b[0]) then b
    else if |a| == 0 || IsSep(a[|a| - 1]) then a + b
    else a + "\\" + b
  }

  /** Joining a plain file name onto a directory keeps it as the base name. */
  lemma JoinedBasename(dir: string, name: string)
    requires |name| > 0 && NoSep(name)
    ensures Basename(PathJoin(dir, name)) == name
  {
    var prefix := if |dir| == 0 || IsSep(dir[|dir| - 1]) then dir else dir + "\\";
    assert PathJoin(dir, name) == prefix + name;
    assert Basename(prefix) == "";
    BasenameAppend(prefix, name);
  }

  // ----- urllib.parse.urlparse(url).path -------------------------------------

  /** Cuts `s` before the first `c`, as `s.split(c, 1)[0]` does. */
  function CutAt(s: string, c: char): (r: string)
    ensures c !in r
    ensures |r| <= |s| && r == s[..|r|]
    ensures |r| < |s| ==> s[|r|] == c
  {
    if c in s then s[..IndexOf(s, c)] else s
  }

  /** The characters `urlsplit` strips from the front of a URL. */
  predicate IsC0OrSpace(c: char) { c <= ' ' }

  function StripLeadingC0(s: string): (r: string)
    ensures |r| > 0 ==> !IsC0OrSpace(r[0])
    ensures |r| <= |s| && r == s[|s| - |r|..]
  {
    if |s| > 0 && IsC0OrSpace(s[0]) then StripLeadingC0(s[1..]) else s
  }

  /** `urlsplit` deletes tab, CR and LF anywhere in the URL. */
  predicate IsUnsafe(c: char) { c == '\t' || c == '\r' || c == '\n' }

  function RemoveUnsafe(s: string): (r: string)
    ensures forall i :: 0 <= i < |r| ==> !IsUnsafe(r[i])
    ensures (forall i :: 0 <= i < |s| ==> !IsUnsafe(s[i])) ==> r == s
  {
    if |s| == 0 then ""
    else (if IsUnsafe(s[0]) then "" else [s[0]]) + RemoveUnsafe(s[1..])
  }

  predicate IsAsciiAlpha(c: char) { 'a' <= c <= 'z' || 'A' <= c <= 'Z' }

  predicate IsSchemeChar(c: char)
  {
    IsAsciiAlpha(c) || IsDigit(c) || c == '+' || c == '-' || c == '.'
  }

  /** The schemes for which `urlparse` splits `;params` off the path. */
  const UsesParams: set<string> :=
    {"", "ftp", "hdl", "prospero", "http", "imap", "https", "shttp", "rtsp",
     "rtsps", "rtspu", "sip", "sips", "mms", "sftp", "tel"}

  /** The index of the colon that ends a scheme, if the URL has one. */
  function SchemeEnd(u: string): (r: Option<nat>)
    ensures r.Some? ==> 0 < r.value < |u| && u[r.value] == ':'
  {
    if ':' in u then
      var i := IndexOf(u, ':');
      if i > 0 && IsAsciiAlpha(u[0]) && forall k :: 0 <= k < i ==> IsSchemeChar(u[k])
      then Some(i) else None
    else None
  }

  /** Splits the (lower-cased) scheme off, as `urlsplit` does. */
  function SplitScheme(u: string): (r: (string, string))
    ensures |r.1| <= |u|
  {
    match SchemeEnd(u)
    case Some(i) => (Lower(u[..i]), u[i + 1..])
    case None => ("", u)
  }

  /** Drops a `//netloc` prefix: the netloc runs to the first `/`, `?` or `#`. */
  function DropNetloc(rest: string): (r: string)
    ensures |r| <= |rest|
  {
    if |rest| >= 2 && rest[..2] == "//" then
      var tail := rest[2..];
      tail[|CutAt(CutAt(CutAt(tail, '/'), '?'), '#')|..]
    else rest
  }

  /** The network location `urlsplit` cuts off a `//` prefix: what follows
      `//` up to the first `/`, `?` or `#`; empty when there is no `//`. */
  function Netloc(rest: string): (r: string)
    ensures |rest| >= 2 && rest[..2] == "//" ==> rest == "//" + r + DropNetloc(rest)
    ensures !(|rest| >= 2 && rest[..2] == "//") ==> r == "" && DropNetloc(rest) == rest
    ensures '/' !in r && '?' !in r && '#' !in r
  {
    if |rest| >= 2 && rest[..2] == "//" then
      var r := CutAt(CutAt(CutAt(rest[2..], '/'), '?'), '#');
      NetlocSplits(rest, r);
      r
    else ""
  }

  /** The three cuts leave a prefix free of all three delimiters. */
  lemma CutChain(t: string)
    ensures var r := CutAt(CutAt(CutAt(t, '/'), '?'), '#');
            r == t[..|r|] && '/' !in r && '?' !in r && '#' !in r
  {
    var a := CutAt(t, '/');
    var b := CutAt(a, '?');
    var r := CutAt(b, '#');
    assert forall i :: 0 <= i < |r| ==> r[i] == b[i] == a[i] == t[i];
    assert forall i :: 0 <= i < |r| ==> r[i] != '/' && r[i] != '?';
  }

  lemma NetlocSplits(rest: string, r: string)
    requires |rest| >= 2 && rest[..2] == "//"
    requires r == CutAt(CutAt(CutAt(rest[2..], '/'), '?'), '#')
    ensures rest == "//" + r + DropNetloc(rest)
    ensures '/' !in r && '?' !in r && '#' !in r
  {
    var tail := rest[2..];
    CutChain(tail);
    assert DropNetloc(rest) == tail[|r|..];
    assert tail == r + tail[|r|..];
    assert rest == rest[..2] + tail;
  }

  /** Whether `urlparse` accepts the URL: `urlsplit` raises `ValueError`
      when the network location holds an opening square bracket without a
      closing one, or a closing one without an opening one. */
  predicate UrlParses(url: string)
  {
    var netloc := Netloc(SplitScheme(RemoveUnsafe(StripLeadingC0(url))).1);
    ('[' in netloc) == (']' in netloc)
  }

  /** `_splitparams`: for schemes that use them, `;params` are cut off the
      last path segment. */
  function DropParams(scheme: string, path: string): string
  {
    if scheme in UsesParams && ';' in path then
      var lastSlash := LastIndex(path, '/');
      path[..lastSlash + 1] + CutAt(path[lastSlash + 1..], ';')
    else path
  }

  /** The path component of `urlparse(url)`. */
  function UrlPath(url: string): string
  {
    var u := RemoveUnsafe(StripLeadingC0(url));
    var (scheme, rest) := SplitScheme(u);
    DropParams(scheme, CutAt(CutAt(DropNetloc(rest), '#'), '?'))
  }

  /** The name used when the URL path has no base name. */
  const DefaultName: string := "audio.mp3"

  /** The name the service gives a download fetched from a URL with this
      path: its base name, or `audio.mp3` when that is empty. It is never
      empty and never holds a separator, so the files built from it stay in
      the cache directory. */
  function NameForPath(path: string): (r: string)
    ensures |r| > 0 && NoSep(r)
    ensures r == Basename(path) || r == DefaultName
    ensures |Basename(path)| > 0 ==> r == Basename(path)
  {
    var b := Basename(path);
    if |b| > 0 then b
    else
      DefaultNameIsPlain();
      DefaultName
  }

  lemma DefaultNameIsPlain()
    ensures |DefaultName| > 0 && NoSep(DefaultName)
  {
    var d := DefaultName;
    assert d == ['a', 'u', 'd', 'i', 'o', '.', 'm', 'p', '3'];
  }

  /** `os.path.basename(urlparse(url).path) or "audio.mp3"`. */
  function DownloadName(url: string): string
  {
    NameForPath(UrlPath(url))
  }

  /** The characters a plain host or a plain path may hold. */
  predicate PlainChar(c: char)
  {
    !IsC0OrSpace(c) && c != '?' && c != '#' && c != ';' && c != '\U{7F}'
  }

  /** A cut at a character the text does not hold keeps all of it. */
  lemma CutAtAbsent(s: string, c: char)
    requires c !in s
    ensures CutAt(s, c) == s
  {
  }

  lemma NetlocOfPlainHost(host: string, path: string)
    requires forall i :: 0 <= i < |host| ==> PlainChar(host[i]) && !IsSep(host[i])
    requires |path| > 0 && path[0] == '/'
    ensures DropNetloc("//" + host + path) == path
  {
    var rest := "//" + host + path;
    var tail := host + path;
    assert rest[..2] == "//" && rest[2..] == tail;
    assert tail[|host|] == '/' && tail[..|host|] == host;
    assert '/' !in host && '?' !in host && '#' !in host;
    assert CutAt(tail, '/') == host;
    CutAtAbsent(host, '?');
    CutAtAbsent(host, '#');
    assert tail[|host|..] == path;
  }

  lemma SchemeOfHttp(url: string)
    requires |url| >= 5 && url[..5] == "http:"
    ensures SplitScheme(url) == ("http", url[5..])
  {
    assert url[4] == ':' && url[..4] == "http";
    assert IndexOf(url, ':') == 4;
    assert Lower("http") == "http";
  }

  /** Text free of tab, CR and LF stays so when concatenated. */
  lemma CleanConcat(a: string, b: string)
    requires forall i :: 0 <= i < |a| ==> !IsUnsafe(a[i])
    requires forall i :: 0 <= i < |b| ==> !IsUnsafe(b[i])
    ensures forall i :: 0 <= i < |a + b| ==> !IsUnsafe((a + b)[i])
  {
    forall i | 0 <= i < |a + b| ensures !IsUnsafe((a + b)[i]) {
      if i < |a| { assert (a + b)[i] == a[i]; } else { assert (a + b)[i] == b[i - |a|]; }
    }
  }

  /** Such a URL has no leading control character and no tab, CR or LF. */
  lemma PlainUrlIsClean(host: string, path: string)
    requires forall i :: 0 <= i < |host| ==> PlainChar(host[i])
    requires forall i :: 0 <= i < |path| ==> PlainChar(path[i])
    ensures RemoveUnsafe(StripLeadingC0("http://" + host + path)) == "http://" + host + path
  {
    var scheme := "http://";
    assert scheme == ['h', 't', 't', 'p', ':', '/', '/'];
    CleanConcat(scheme, host);
    CleanConcat(scheme + host, path);
    var url := scheme + host + path;
    assert url[0] == 'h';
    assert StripLeadingC0(url) == url;
  }

  lemma HttpParts(rest: string)
    ensures ("http://" + rest)[..5] == "http:"
    ensures ("http://" + rest)[5..] == "//" + rest
  {
  }

  /** `UrlPath` step by step. */
  lemma UrlPathSteps(url: string, scheme: string, rest: string, path: string)
    requires RemoveUnsafe(StripLeadingC0(url)) == url
    requires SplitScheme(url) == (scheme, rest)
    requires CutAt(CutAt(DropNetloc(rest), '#'), '?') == path
    ensures UrlPath(url) == DropParams(scheme, path)
  {
  }

  /** For a URL `http://host/path` written without query, fragment,
      parameters or control characters, the path is exactly `/path`. */
  lemma PlainHttpUrlPath(host: string, path: string)
    requires forall i :: 0 <= i < |host| ==> PlainChar(host[i]) && !IsSep(host[i])
    requires |path| > 0 && path[0] == '/'
    requires forall i :: 0 <= i < |path| ==> PlainChar(path[i])
    ensures UrlPath("http://" + host + path) == path
  {
    var url := "http://" + host + path;
    PlainUrlIsClean(host, path);
    HttpParts(host + path);
    assert url == "http://" + (host + path);
    assert "//" + host + path == "//" + (host + path);
    SchemeOfHttp(url);
    NetlocOfPlainHost(host, path);
    assert '#' !in path && '?' !in path && ';' !in path;
    CutAtAbsent(path, '#');
    CutAtAbsent(path, '?');
    UrlPathSteps(url, "http", "//" + host + path, path);
  }

  /** Such a URL names its download after the last segment of its path. */
  lemma PlainHttpDownloadName(host: string, path: string)
    requires forall i :: 0 <= i < |host| ==> PlainChar(host[i]) && host[i] != '/' && host[i] != '\\'
    requires |path| > 0 && path[0] == '/'
    requires forall i :: 0 <= i < |path| ==> PlainChar(path[i])
    requires |Basename(path)| > 0
    ensures DownloadName("http://" + host + path) == Basename(path)
  {
    PlainHttpUrlPath(host, path);
  }

  /** Such a URL is accepted exactly when its host holds both square
      brackets or neither. */
  lemma PlainHttpUrlParses(host: string, path: string)
    requires forall i :: 0 <= i < |host| ==> PlainChar(host[i]) && !IsSep(host[i])
    requires |path| > 0 && path[0] == '/'
    requires forall i :: 0 <= i < |path| ==> PlainChar(path[i])
    ensures UrlParses("http://" + host + path) <==> (('[' in host) == (']' in host))
  {
    var url := "http://" + host + path;
    var rest := "//" + host + path;
    PlainUrlIsClean(host, path);
    HttpParts(host + path);
    assert url == "http://" + (host + path);
    assert rest == "//" + (host + path);
    SchemeOfHttp(url);
    NetlocOfPlainHost(host, path);
    var r := Netloc(rest);
    assert rest == "//" + r + path;
    assert |r| == |host|;
    assert r == rest[2..2 + |host|] == host;
  }
}
