// eocCom/dns/uri.cpp: cutting a URI at its delimiters, and the one allocation its fields
// are copied into.
module Uri {
  import opened Basics

  datatype Uri = Uri(
    scheme: Option<string>, userInfo: Option<string>, host: string,
    port: Option<string>, path: Option<string>, query: Option<string>)

  // ---- The notation ----

  function Before(part: Option<string>, delimiter: string): string {
    if part.Some? then part.value + delimiter else ""
  }

  function After(delimiter: string, part: Option<string>): string {
    if part.Some? then delimiter + part.value else ""
  }

  function FromPath(u: Uri): string {
    After("/", u.path) + After("?", u.query)
  }

  function FromHost(u: Uri): string {
    u.host + After(":", u.port) + FromPath(u)
  }

  function FromUserInfo(u: Uri): string {
    Before(u.userInfo, "@") + FromHost(u)
  }

  function Print(u: Uri): string {
    Before(u.scheme, "://") + FromUserInfo(u)
  }

  // ---- Searching ----

  predicate At(s: string, i: nat, pattern: string) {
    i + |pattern| <= |s| && s[i..i + |pattern|] == pattern
  }

  ghost predicate Free(s: string, pattern: string) {
    forall i: nat :: !At(s, i, pattern)
  }

  ghost predicate First(s: string, i: nat, pattern: string) {
    At(s, i, pattern) && forall j: nat | j < i :: !At(s, j, pattern)
  }

  /** strstr, and strchr for a pattern of one character. */
  function Search(s: string, pattern: string): (p: Option<nat>)
    ensures p.Some? ==> First(s, p.value, pattern)
    ensures p.None? ==> Free(s, pattern)
  {
    SearchFrom(s, 0, pattern)
  }

  function SearchFrom(s: string, i: nat, pattern: string): (p: Option<nat>)
    requires forall j: nat | j < i :: !At(s, j, pattern)
    ensures p.Some? ==> First(s, p.value, pattern)
    ensures p.None? ==> Free(s, pattern)
    decreases |s| - i
  {
    if At(s, i, pattern) then Some(i)
    else if i < |s| then SearchFrom(s, i + 1, pattern)
    else None
  }

  // ---- Parsing ----

  /** The part before the first `delimiter`, if there is one, and the rest behind it. */
  function Cut(s: string, delimiter: string): (r: (Option<string>, string)) {
    var p := Search(s, delimiter);
    if p.Some? then (Some(s[..p.value]), s[p.value + |delimiter|..]) else (None, s)
  }

  function Parse(text: string): Uri {
    var (scheme, r1) := Cut(text, "://");
    var (userInfo, r2) := Cut(r1, "@");
    Authority(scheme, userInfo, r2)
  }

  function LastBefore(r4: string): string {
    var before := Cut(r4, "?").0;
    if before.Some? then before.value else r4
  }

  function BehindMark(r4: string): Option<string> {
    if Cut(r4, "?").0.Some? then Some(Cut(r4, "?").1) else None
  }

  // The host ends at the first ':', else at the first '/', else with the text or the '?'.
  function Authority(scheme: Option<string>, userInfo: Option<string>, r2: string): Uri {
    var (left, r3) := Cut(r2, ":");
    var (middle, r4) := Cut(r3, "/");
    var last := LastBefore(r4);
    Uri(scheme, userInfo,
        if left.Some? then left.value else if middle.Some? then middle.value else last,
        if left.None? then None else if middle.Some? then middle else Some(last),
        if middle.Some? then Some(last) else None,
        BehindMark(r4))
  }

  // ---- Which fields survive ----

  /** The field that ends at the '?' or with the text. */
  function LastField(u: Uri): string {
    if u.path.Some? then u.path.value else HostOrPort(u)
  }

  function HostOrPort(u: Uri): string {
    if u.port.Some? then u.port.value else u.host
  }

  /** A delimiter that is present must not occur in the field before it, and one that is
      absent must not occur in anything the search for it walks over. */
  ghost predicate Unambiguous(u: Uri) {
    && Free(if u.scheme.Some? then u.scheme.value else FromUserInfo(u), "://")
    && Free(if u.userInfo.Some? then u.userInfo.value else FromHost(u), "@")
    && Free(if u.port.Some? then u.host else FromHost(u), ":")
    && Free(if u.path.Some? then HostOrPort(u) else HostOrPort(u) + After("?", u.query), "/")
    && Free(LastField(u), "?")
  }

  // No character of the delimiter repeats its first one, so it cannot begin inside the
  // field before it.
  predicate Delimiter(d: string) {
    |d| > 0 && forall k | 0 < k < |d| :: d[k] != d[0]
  }

  lemma FirstBehindFree(a: string, d: string, rest: string)
    requires Delimiter(d) && Free(a, d)
    ensures First(a + d + rest, |a|, d)
  {
    var s := a + d + rest;
    assert s[|a|..|a| + |d|] == d;
    forall j: nat | j < |a| ensures !At(s, j, d) {
      if j + |d| <= |a| {
        assert s[j..j + |d|] == a[j..j + |d|];
        assert !At(a, j, d);
      } else {
        assert s[j..j + |d|][|a| - j] == s[|a|] == d[0];
      }
    }
  }

  lemma FirstIsUnique(s: string, i: nat, j: nat, d: string)
    requires First(s, i, d) && First(s, j, d)
    ensures i == j
  {
  }

  lemma CutPresent(a: string, d: string, rest: string)
    requires Delimiter(d) && Free(a, d)
    ensures Cut(a + d + rest, d) == (Some(a), rest)
  {
    var s := a + d + rest;
    FirstBehindFree(a, d, rest);
    assert At(s, |a|, d);
    var p := Search(s, d);
    FirstIsUnique(s, p.value, |a|, d);
    assert s[..|a|] == a && s[|a| + |d|..] == rest;
  }

  lemma CutAbsent(s: string, d: string)
    requires Free(s, d)
    ensures Cut(s, d) == (None, s)
  {
  }

  lemma CutIsLossless(s: string, d: string)
    requires Delimiter(d)
    ensures var (a, rest) := Cut(s, d); s == Before(a, d) + rest
    ensures Free(if Cut(s, d).0.Some? then Cut(s, d).0.value else s, d)
  {
    var p := Search(s, d);
    if p.Some? {
      assert s == s[..p.value] + s[p.value..p.value + |d|] + s[p.value + |d|..];
      forall j: nat ensures !At(s[..p.value], j, d) {
        if At(s[..p.value], j, d) {
          assert s[..p.value][j..j + |d|] == s[j..j + |d|];
          assert At(s, j, d);
        }
      }
    }
  }

  /** Nothing of the text is lost or invented. */
  lemma PrintOfParse(text: string)
    ensures Print(Parse(text)) == text
  {
    hide Cut, Free, Authority;
    var (scheme, r1) := Cut(text, "://");
    CutIsLossless(text, "://");
    var (userInfo, r2) := Cut(r1, "@");
    CutIsLossless(r1, "@");
    AuthorityIsLossless(scheme, userInfo, r2);
    AuthorityKeeps(scheme, userInfo, r2);
  }

  lemma AuthorityIsLossless(scheme: Option<string>, userInfo: Option<string>, r2: string)
    ensures FromHost(Authority(scheme, userInfo, r2)) == r2
  {
    hide Cut, Free, Before;
    var (left, r3) := Cut(r2, ":");
    CutIsLossless(r2, ":");
    var (middle, r4) := Cut(r3, "/");
    CutIsLossless(r3, "/");
    LastIsLossless(r4);
    Joined(left, middle, LastBefore(r4), After("?", BehindMark(r4)), r2, r3, r4);
  }

  lemma LastIsLossless(r4: string)
    ensures r4 == LastBefore(r4) + After("?", BehindMark(r4))
  {
    hide Cut, Free;
    CutIsLossless(r4, "?");
  }

  lemma AuthorityIsUnambiguous(scheme: Option<string>, userInfo: Option<string>, r2: string)
    ensures var u := Authority(scheme, userInfo, r2);
            && Free(if u.port.Some? then u.host else r2, ":")
            && Free(if u.path.Some? then HostOrPort(u) else HostOrPort(u) + After("?", u.query), "/")
            && Free(LastField(u), "?")
  {
    hide Cut, Free, After;
    var (left, r3) := Cut(r2, ":");
    CutIsLossless(r2, ":");
    var (middle, r4) := Cut(r3, "/");
    CutIsLossless(r3, "/");
    CutIsLossless(r4, "?");
    LastIsLossless(r4);
    assert middle.None? ==> r3 == r4;
  }

  lemma Joined(left: Option<string>, middle: Option<string>, last: string, q: string,
               r2: string, r3: string, r4: string)
    requires r2 == Before(left, ":") + r3 && r3 == Before(middle, "/") + r4 && r4 == last + q
    ensures var host := if left.Some? then left.value else if middle.Some? then middle.value else last;
            var port := if left.None? then None else if middle.Some? then middle else Some(last);
            var path := if middle.Some? then Some(last) else None;
            host + After(":", port) + (After("/", path) + q) == r2
  {
    match (left, middle)
    case (None, None) =>
      assert last + After(":", None) + (After("/", None) + q) == last + q;
    case (None, Some(m)) =>
      assert m + After(":", None) + (After("/", Some(last)) + q) == m + "/" + (last + q);
    case (Some(l), None) =>
      assert l + After(":", Some(last)) + (After("/", None) + q) == l + ":" + (last + q);
    case (Some(l), Some(m)) =>
      assert l + After(":", Some(m)) + (After("/", Some(last)) + q) == l + ":" + (m + "/" + (last + q));
  }

  lemma ParsedIsUnambiguous(text: string)
    ensures Unambiguous(Parse(text))
  {
    hide Cut, Free, Authority;
    PrintOfParse(text);
    var (scheme, r1) := Cut(text, "://");
    CutIsLossless(text, "://");
    var (userInfo, r2) := Cut(r1, "@");
    CutIsLossless(r1, "@");
    AuthorityIsLossless(scheme, userInfo, r2);
    AuthorityIsUnambiguous(scheme, userInfo, r2);
    AuthorityKeeps(scheme, userInfo, r2);
    assert scheme.None? ==> text == r1;
    assert userInfo.None? ==> r1 == r2;
    assert FromUserInfo(Authority(scheme, userInfo, r2)) == r1;
  }

  lemma AuthorityKeeps(scheme: Option<string>, userInfo: Option<string>, r2: string)
    ensures var u := Authority(scheme, userInfo, r2); u.scheme == scheme && u.userInfo == userInfo
  {
  }

  lemma PrintedAuthority(u: Uri)
    requires Unambiguous(u)
    ensures Authority(u.scheme, u.userInfo, FromHost(u)) == u
  {
    hide Cut, Free;
    var q := After("?", u.query);
    var r4 := LastField(u) + q;
    var r3 := if u.path.Some? then HostOrPort(u) + "/" + r4 else r4;
    PrintedFromHost(u);
    if u.port.Some? {
      CutPresent(u.host, ":", r3);
    } else {
      CutAbsent(FromHost(u), ":");
    }
    if u.path.Some? {
      CutPresent(HostOrPort(u), "/", r4);
    } else {
      CutAbsent(r3, "/");
    }
    if u.query.Some? {
      assert r4 == LastField(u) + "?" + u.query.value;
      CutPresent(LastField(u), "?", u.query.value);
    } else {
      assert r4 == LastField(u);
      CutAbsent(r4, "?");
    }
  }

  lemma PrintedFromHost(u: Uri)
    ensures var r4 := LastField(u) + After("?", u.query);
            var r3 := if u.path.Some? then HostOrPort(u) + "/" + r4 else r4;
            FromHost(u) == if u.port.Some? then u.host + ":" + r3 else r3
  {
    var q := After("?", u.query);
    if u.path.Some? {
      assert FromPath(u) == "/" + (u.path.value + q);
      if u.port.Some? {
        assert FromHost(u) == u.host + ":" + (u.port.value + "/" + (u.path.value + q));
      } else {
        assert FromHost(u) == u.host + "/" + (u.path.value + q);
      }
    } else {
      assert FromPath(u) == q;
      if u.port.Some? {
        assert FromHost(u) == u.host + ":" + (u.port.value + q);
      }
    }
  }

  /** Printing and parsing gives the fields back exactly when no field hides a delimiter
      from the search that looks for it. */
  lemma ParseOfPrint(u: Uri)
    ensures Parse(Print(u)) == u <==> Unambiguous(u)
  {
    hide Cut, Free;
    ParsedIsUnambiguous(Print(u));
    if Unambiguous(u) {
      var r1 := FromUserInfo(u);
      if u.scheme.Some? {
        CutPresent(u.scheme.value, "://", r1);
        assert Print(u) == u.scheme.value + "://" + r1;
      } else {
        CutAbsent(r1, "://");
        assert Print(u) == r1;
      }
      var r2 := FromHost(u);
      if u.userInfo.Some? {
        CutPresent(u.userInfo.value, "@", r2);
        assert r1 == u.userInfo.value + "@" + r2;
      } else {
        CutAbsent(r2, "@");
        assert r1 == r2;
      }
      PrintedAuthority(u);
    }
  }

  lemma NoCharacter(s: string, c: char)
    requires c !in s
    ensures Free(s, [c])
  {
    forall i: nat ensures !At(s, i, [c]) {
      if i < |s| {
        assert s[i..i + 1][0] == s[i];
      }
    }
  }

  lemma NoScheme(s: string)
    requires ':' !in s
    ensures Free(s, "://")
  {
    forall i: nat ensures !At(s, i, "://") {
      if i + 3 <= |s| {
        assert s[i..i + 3][0] == s[i];
      }
    }
  }

  // ---- Fields without delimiters ----

  /** No field contains a delimiter. */
  predicate Delimited(u: Uri) {
    && Plain(u.host) && PlainPart(u.scheme) && PlainPart(u.userInfo)
    && PlainPart(u.port) && PlainPart(u.path) && PlainPart(u.query)
  }

  predicate PlainPart(part: Option<string>) {
    part.Some? ==> Plain(part.value)
  }

  predicate Plain(s: string) {
    ':' !in s && '/' !in s && '@' !in s && '?' !in s
  }

  // One '/' is not enough for a "://".
  lemma NoSecondSlash(x: string, y: string)
    requires '/' !in x && (y != "" ==> '/' !in y[1..])
    ensures Free(x + y, "://")
  {
    forall i: nat ensures !At(x + y, i, "://") {
      var s := x + y;
      if i + 3 <= |s| {
        assert s[i..i + 3][1] == s[i + 1] && s[i..i + 3][2] == s[i + 2];
        if i + 1 < |x| {
          assert s[i + 1] == x[i + 1];
        } else {
          assert s[i + 2] == y[i + 2 - |x|] == y[1..][i + 1 - |x|];
        }
      }
    }
  }

  lemma NoSchemeBehind(u: Uri)
    requires Delimited(u)
    ensures Free(FromUserInfo(u), "://")
  {
    hide Free;
    var x, y := Before(u.userInfo, "@") + u.host + After(":", u.port), FromPath(u);
    OneSlash(u);
    NoSecondSlash(x, y);
    assert FromUserInfo(u) == x + y;
  }

  lemma OneSlash(u: Uri)
    requires Delimited(u)
    ensures '/' !in Before(u.userInfo, "@") + u.host + After(":", u.port)
    ensures FromPath(u) != "" ==> '/' !in FromPath(u)[1..]
  {
    if u.path.Some? {
      assert FromPath(u)[1..] == u.path.value + After("?", u.query);
    } else {
      assert FromPath(u) == After("?", u.query);
    }
  }

  lemma DelimitedIsUnambiguous(u: Uri)
    requires Delimited(u)
    ensures Unambiguous(u)
  {
    hide Free;
    if u.scheme.Some? {
      NoScheme(u.scheme.value);
    } else {
      NoSchemeBehind(u);
    }
    NoCharacter(if u.userInfo.Some? then u.userInfo.value else FromHost(u), '@');
    NoCharacter(if u.port.Some? then u.host else FromHost(u), ':');
    NoCharacter(if u.path.Some? then HostOrPort(u) else HostOrPort(u) + After("?", u.query), '/');
    NoCharacter(LastField(u), '?');
  }

  /** Any choice of present fields without delimiters comes back. */
  lemma DelimitedRoundTrip(u: Uri)
    requires Delimited(u)
    ensures Parse(Print(u)) == u
  {
    DelimitedIsUnambiguous(u);
    ParseOfPrint(u);
  }

  // An '@' in the query of a URI without user info: everything before it becomes user info.
  lemma QueryCanHideTheHost()
    ensures var u := Uri(None, None, "h", None, None, Some("a@b"));
            Parse(Print(u)) == Uri(None, Some("h?a"), "b", None, None, None)
  {
    hide Cut;
    var u := Uri(None, None, "h", None, None, Some("a@b"));
    assert Print(u) == "h?a@b" == "h?a" + "@" + "b";
    NoScheme("h?a@b");
    NoCharacter("h?a", '@');
    CutAbsent("h?a@b", "://");
    CutPresent("h?a", "@", "b");
    NoCharacter("b", ':');
    NoCharacter("b", '/');
    NoCharacter("b", '?');
    CutAbsent("b", ":");
    CutAbsent("b", "/");
    CutAbsent("b", "?");
  }

  // ---- The allocation ----

  predicate CText(s: string) {
    '\0' !in s
  }

  /** A pointer into a NUL-terminated text and how many bytes to reserve for the copy. */
  datatype Param = Null | From(text: string, size: nat)

  /** The caller reserves room for a terminator and no more than the text needs. */
  predicate Sized(p: Param) {
    p.From? ==> 1 <= p.size <= |p.text| + 1 && CText(p.text)
  }

  function Bytes(p: Param): nat {
    if p.From? then p.size else 0
  }

  function Value(p: Param): (v: Option<string>)
    requires Sized(p)
    ensures v.Some? == p.From? && (v.Some? ==> CText(v.value))
  {
    if p.From? then Some(p.text[..p.size - 1]) else None
  }

  function Stored(v: Option<string>): string {
    if v.Some? then v.value + "\0" else ""
  }

  /** What a C reader sees at `at`: the characters up to the terminator. */
  function CString(memory: string, at: nat): string
    decreases |memory| - at
  {
    if at >= |memory| || memory[at] == '\0' then "" else [memory[at]] + CString(memory, at + 1)
  }

  lemma {:induction false} CStringAt(before: string, v: string, rest: string)
    requires CText(v)
    decreases |v|
    ensures CString(before + v + "\0" + rest, |before|) == v
  {
    var memory := before + v + "\0" + rest;
    if v != "" {
      assert memory == (before + [v[0]]) + v[1..] + "\0" + rest;
      CStringAt(before + [v[0]], v[1..], rest);
    }
  }

  /** Copies the text, or as much of it as leaves room for the terminator. */
  method CopyString(buffer: array<char>, at: nat, src: string, size: nat)
    requires CText(src) && 1 <= size && at + size <= buffer.Length
    modifies buffer
    ensures var n := if |src| < size then |src| else size - 1;
            buffer[..] == old(buffer[..at]) + src[..n] + "\0" + old(buffer[at + n + 1..])
  {
    var dst, i, left := at, 0, size;
    while i < |src| && left != 0
      invariant 0 <= i <= |src| && left == size - i && dst == at + i
      invariant forall k | 0 <= k < buffer.Length ::
        buffer[k] == if at <= k < dst then src[k - at] else old(buffer[k])
    {
      buffer[dst] := src[i];
      dst, i, left := dst + 1, i + 1, left - 1;
    }
    if left == 0 {
      dst := dst - 1;
    }
    buffer[dst] := '\0';
  }

  method SetValue(buffer: array<char>, p: nat, param: Param) returns (field: Option<nat>, next: nat)
    requires Sized(param) && p + Bytes(param) <= buffer.Length
    modifies buffer
    ensures next == p + Bytes(param) && (field == if param.From? then Some(p) else None)
    ensures buffer[..next] == old(buffer[..p]) + Stored(Value(param))
    ensures Holds(buffer[..next], field, Value(param))
  {
    if param.From? {
      CopyString(buffer, p, param.text, param.size);
      return Some(p), p + param.size;
    }
    return None, p;
  }

  /** The field pointer is null just when the field is absent, and else the field and its
      terminator stand at the pointer. */
  predicate Holds(memory: string, field: Option<nat>, v: Option<string>) {
    && field.Some? == v.Some?
    && (v.Some? ==>
          && CText(v.value)
          && field.value + |v.value| + 1 <= |memory|
          && memory[field.value..field.value + |v.value| + 1] == v.value + "\0")
  }

  lemma HoldsLonger(memory: string, more: string, field: Option<nat>, v: Option<string>)
    requires Holds(memory, field, v) && memory <= more
    ensures Holds(more, field, v)
  {
  }

  lemma HoldsReads(memory: string, field: Option<nat>, v: Option<string>)
    requires Holds(memory, field, v)
    ensures v.Some? ==> CString(memory, field.value) == v.value
  {
    if v.Some? {
      var end := field.value + |v.value| + 1;
      assert memory == memory[..field.value] + memory[field.value..end] + memory[end..];
      assert memory == memory[..field.value] + v.value + "\0" + memory[end..];
      CStringAt(memory[..field.value], v.value, memory[end..]);
    }
  }

  lemma ThreePrefixes(m0: string, m1: string, m2: string, a: Option<string>, b: Option<string>, c: Option<string>)
    requires m1 == m0 + Stored(a) && m2 == m1 + Stored(b)
    ensures m1 <= m2 + Stored(c) && m2 <= m2 + Stored(c)
    ensures m2 + Stored(c) == m0 + Three(a, b, c)
  {
    hide Stored;
    Regroup(m0, Stored(a), Stored(b), Stored(c));
  }

  lemma Regroup(m: string, x: string, y: string, z: string)
    ensures m + x + y + z == m + (x + y + z)
    ensures m + x <= m + x + y + z
  {
    assert m + x + y + z == m + x + (y + z);
  }

  function Three(a: Option<string>, b: Option<string>, c: Option<string>): string {
    Stored(a) + Stored(b) + Stored(c)
  }

  // Three of the copies, one behind the other.
  method SetThree(buffer: array<char>, start: nat, a: Param, b: Param, c: Param)
    returns (fa: Option<nat>, fb: Option<nat>, fc: Option<nat>, next: nat)
    requires Sized(a) && Sized(b) && Sized(c) && start + Bytes(a) + Bytes(b) + Bytes(c) <= buffer.Length
    modifies buffer
    ensures next == start + Bytes(a) + Bytes(b) + Bytes(c)
    ensures buffer[..next] == old(buffer[..start]) + Three(Value(a), Value(b), Value(c))
    ensures Holds(buffer[..next], fa, Value(a))
    ensures Holds(buffer[..next], fb, Value(b))
    ensures Holds(buffer[..next], fc, Value(c))
  {
    hide Stored, Holds, Bytes, Value, Sized, Three;
    ghost var m0 := buffer[..start];
    fa, next := SetValue(buffer, start, a);
    ghost var m1 := buffer[..next];
    fb, next := SetValue(buffer, next, b);
    ghost var m2 := buffer[..next];
    fc, next := SetValue(buffer, next, c);
    ghost var m3 := buffer[..next];
    ThreePrefixes(m0, m1, m2, Value(a), Value(b), Value(c));
    HoldsLonger(m1, m3, fa, Value(a));
    HoldsLonger(m2, m3, fb, Value(b));
  }

  class AstUri {
    var scheme: Option<nat>
    var userInfo: Option<nat>
    var host: Option<nat>
    var port: Option<nat>
    var path: Option<nat>
    var query: Option<nat>
    var uri: array<char>

    /** Every field pointer reads back its field, and the fields with their terminators are
        all there is. */
    ghost predicate Represents(u: Uri)
      reads this, uri
    {
      && Holds(uri[..], scheme, u.scheme) && Holds(uri[..], userInfo, u.userInfo)
      && Holds(uri[..], host, Some(u.host)) && Holds(uri[..], port, u.port)
      && Holds(uri[..], path, u.path) && Holds(uri[..], query, u.query)
      && uri[..] == Three(u.scheme, u.userInfo, Some(u.host)) + Three(u.port, u.path, u.query)
    }

    constructor Create(s: Param, ui: Param, h: Param, po: Param, pa: Param, q: Param)
      requires Sized(s) && Sized(ui) && Sized(h) && Sized(po) && Sized(pa) && Sized(q) && h.From?
      ensures fresh(uri)
      ensures Represents(Uri(Value(s), Value(ui), Value(h).value, Value(po), Value(pa), Value(q)))
    {
      hide Stored, Holds, Bytes, Value, Sized, Three;
      var total := Bytes(s) + Bytes(ui) + Bytes(h) + Bytes(po) + Bytes(pa) + Bytes(q);
      var memory := new char[total](_ => '\0');
      var p := 0;
      var f0, f1, f2, f3, f4, f5;
      f0, f1, f2, p := SetThree(memory, p, s, ui, h);
      ghost var half := memory[..p];
      assert half == Three(Value(s), Value(ui), Value(h));
      f3, f4, f5, p := SetThree(memory, p, po, pa, q);
      assert memory[..p] == memory[..];
      HoldsLonger(half, memory[..], f0, Value(s));
      HoldsLonger(half, memory[..], f1, Value(ui));
      HoldsLonger(half, memory[..], f2, Value(h));
      scheme, userInfo, host, port, path, query, uri := f0, f1, f2, f3, f4, f5, memory;
    }
  }

  // ---- The parser ----

  lemma CutAt(text: string, from: nat, d: string, p: Option<nat>)
    requires from <= |text|
    requires p.Some? ==> from <= p.value && First(text[from..], p.value - from, d)
    requires p.None? ==> Free(text[from..], d)
    ensures p.None? ==> Cut(text[from..], d) == (None, text[from..])
    ensures p.Some? ==> p.value + |d| <= |text| && text[p.value..p.value + |d|] == d
    ensures p.Some? ==> Cut(text[from..], d) == (Some(text[from..p.value]), text[p.value + |d|..])
  {
    if p.Some? {
      var i := p.value - from;
      assert At(text[from..], i, d);
      var q := Search(text[from..], d);
      FirstIsUnique(text[from..], i, q.value, d);
      assert text[from..][..i] == text[from..p.value];
      assert text[from..][i + |d|..] == text[p.value + |d|..];
      assert text[from..][i..i + |d|] == text[p.value..p.value + |d|];
    }
  }

  method Find(s: string, from: nat, pattern: string) returns (p: Option<nat>)
    requires from <= |s|
    ensures p.Some? ==> from <= p.value && First(s[from..], p.value - from, pattern)
    ensures p.None? ==> Free(s[from..], pattern)
    ensures p.None? ==> Cut(s[from..], pattern) == (None, s[from..])
    ensures p.Some? ==> p.value + |pattern| <= |s| && s[p.value..p.value + |pattern|] == pattern
    ensures p.Some? && |pattern| > 0 ==> s[p.value] == pattern[0]
    ensures p.Some? ==> Cut(s[from..], pattern) == (Some(s[from..p.value]), s[p.value + |pattern|..])
  {
    hide Cut;
    ghost var rest := s[from..];
    var i := from;
    while i + |pattern| <= |s|
      invariant from <= i
      invariant forall j: nat | j < i - from :: !At(rest, j, pattern)
    {
      assert s[i..i + |pattern|] == rest[i - from..i - from + |pattern|];
      if s[i..i + |pattern|] == pattern {
        p := Some(i);
        CutAt(s, from, pattern, p);
        return;
      }
      assert !At(rest, i - from, pattern);
      i := i + 1;
    }
    p := None;
    CutAt(s, from, pattern, p);
  }

  /** `value` at `from`, ending before `end`. */
  function Field(text: string, from: nat, end: nat): Param
    requires from <= end <= |text|
  {
    From(text[from..], end - from + 1)
  }

  lemma FieldValue(text: string, from: nat, end: nat)
    requires from <= end <= |text| && CText(text)
    ensures var f := Field(text, from, end); f.From? && Sized(f) && Value(f) == Some(text[from..end])
  {
    assert text[from..][..end - from] == text[from..end];
  }

  method UriParse(text: string) returns (res: AstUri)
    requires CText(text)
    ensures fresh(res) && fresh(res.uri)
    ensures res.Represents(Parse(text))
  {
    hide Free, Cut, Holds, Stored, Three, Authority, Field;
    var scheme, userInfo, host, port, path, query := Null, Null, Null, Null, Null, Null;
    var uri := 0;
    assert text[0..] == text;
    var p := Find(text, uri, "://");
    if p.Some? {
      scheme := Field(text, uri, p.value);
      FieldValue(text, uri, p.value);
      uri := p.value + 3;
    }
    p := Find(text, uri, "@");
    if p.Some? {
      userInfo := Field(text, uri, p.value);
      FieldValue(text, uri, p.value);
      uri := p.value + 1;
    }
    host, port, path, query := ParseAuthority(text, uri, Value(scheme), Value(userInfo));
    res := new AstUri.Create(scheme, userInfo, host, port, path, query);
  }

  method ParseAuthority(text: string, start: nat, ghost scheme: Option<string>, ghost userInfo: Option<string>)
    returns (host: Param, port: Param, path: Param, query: Param)
    requires CText(text) && start <= |text|
    ensures host.From? && Sized(host) && Sized(port) && Sized(path) && Sized(query)
    ensures Uri(scheme, userInfo, Value(host).value, Value(port), Value(path), Value(query))
         == Authority(scheme, userInfo, text[start..])
  {
    hide Free, Cut, Field, Sized, Value, CText, First, Authority;
    NullValue();
    var uri := start;
    host, port, path, query := Null, Null, Null, Null;
    var p := Find(text, uri, ":");
    if p.Some? {
      host := Field(text, uri, p.value);
      FieldValue(text, uri, p.value);
      uri := p.value + 1;
      assert text[uri - 1] == ':';
    }
    ghost var left, r3 := Value(host), text[uri..];
    assert Cut(text[start..], ":") == (left, r3);
    p := Find(text, uri, "/");
    ghost var middle := None;
    if p.Some? {
      FieldValue(text, uri, p.value);
      middle := Some(text[uri..p.value]);
      if host.Null? {
        host := Field(text, uri, p.value);
      } else {
        port := Field(text, uri, p.value);
      }
      uri := p.value + 1;
      assert text[uri - 1] == '/';
    }
    ghost var r4 := text[uri..];
    assert Cut(r3, "/") == (middle, r4);
    p := Find(text, uri, "?");
    var end := |text|;
    if p.Some? {
      end := p.value;
      query := Field(text, end + 1, |text|);
      FieldValue(text, end + 1, |text|);
      assert text[end + 1..|text|] == text[end + 1..];
    }
    ghost var last := text[uri..end];
    assert last == LastBefore(r4) && Value(query) == BehindMark(r4);
    Assembled(scheme, userInfo, text[start..], left, middle, r3, r4);
    FieldValue(text, uri, end);
    if host.Null? {
      host := Field(text, uri, end);
    } else if text[uri - 1] == ':' {
      port := Field(text, uri, end);
    } else if text[uri - 1] == '/' {
      path := Field(text, uri, end);
    }
  }

  lemma Assembled(
      scheme: Option<string>, userInfo: Option<string>, r2: string,
      left: Option<string>, middle: Option<string>, r3: string, r4: string)
    requires Cut(r2, ":") == (left, r3) && Cut(r3, "/") == (middle, r4)
    ensures Authority(scheme, userInfo, r2)
         == Uri(scheme, userInfo,
                if left.Some? then left.value else if middle.Some? then middle.value else LastBefore(r4),
                if left.None? then None else if middle.Some? then middle else Some(LastBefore(r4)),
                if middle.Some? then Some(LastBefore(r4)) else None,
                BehindMark(r4))
  {
    hide Cut;
  }

  lemma NullValue()
    ensures Sized(Null) && Value(Null) == None
  {
  }
}
