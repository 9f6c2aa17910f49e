/**
 Taking a URL apart and putting it together again, as urllib.parse does with
 urlsplit and urlunsplit: those of the later releases of Python 3.12, which print
 `//` before a path that itself starts with two slashes and has no authority.
 Without it, such a path would be read back as an authority.
 */
module UrlParts {
  import opened Options
  import opened FormEncoding

  datatype Parts = Parts(scheme: string, netloc: string, path: string, query: string, fragment: string)

  predicate IsLetter(c: char) {
    'a' <= c <= 'z' || 'A' <= c <= 'Z'
  }

  predicate IsSchemeChar(c: char) {
    IsLetter(c) || '0' <= c <= '9' || c in "+-."
  }

  function Lower(s: string): (t: string)
    ensures |t| == |s|
  {
    seq(|s|, i requires 0 <= i < |s| => if 'A' <= s[i] <= 'Z' then (s[i] as int + 32) as char else s[i])
  }

  // ----- cleaning -----

  function Stripped(s: string): string {
    if s != "" && s[0] <= ' ' then Stripped(s[1..]) else s
  }

  function WithoutBreaks(s: string): (t: string)
    ensures forall c :: c in t ==> c in s && c !in "\t\r\n"
  {
    if s == "" then ""
    else if s[0] in "\t\r\n" then WithoutBreaks(s[1..])
    else [s[0]] + WithoutBreaks(s[1..])
  }

  /** Leading control characters and spaces, and every tab and line break, are
      ignored. */
  function Cleaned(url: string): string {
    WithoutBreaks(Stripped(url))
  }

  // ----- splitting -----

  predicate HasScheme(s: string) {
    var i := Find(s, ':');
    0 < i < |s| && IsLetter(s[0]) && forall j :: 0 <= j < i ==> IsSchemeChar(s[j])
  }

  function SplitScheme(s: string): (r: (string, string)) {
    var i := Find(s, ':');
    if HasScheme(s) then (Lower(s[..i]), s[i + 1..]) else ("", s)
  }

  /** The authority ends at the first `/`, `?` or `#`. */
  function NetlocEnd(s: string): (i: nat)
    ensures i <= |s| && (forall c :: c in s[..i] ==> c !in "/?#")
    ensures i < |s| ==> s[i] in "/?#"
  {
    if s == "" || s[0] in "/?#" then 0 else 1 + NetlocEnd(s[1..])
  }

  /** What stands before `c` and what stands after it. */
  function Cut(s: string, c: char): (r: (string, string)) {
    var i := Find(s, c);
    if i == |s| then (s, "") else (s[..i], s[i + 1..])
  }

  predicate StartsWithSlashes(s: string) {
    |s| >= 2 && s[0] == '/' && s[1] == '/'
  }

  /** An opening bracket without a closing one, or the other way round. */
  predicate BracketsMismatch(netloc: string) {
    ('[' in netloc) != (']' in netloc)
  }

  function SplitRest(scheme: string, netloc: string, rest: string): Parts {
    var (front, fragment) := Cut(rest, '#');
    var (path, query) := Cut(front, '?');
    Parts(scheme, netloc, path, query, fragment)
  }

  /** `allowed` stands for the library's checks of bracketed hosts and of
      characters that Unicode normalisation would turn into delimiters; neither
      looks at an empty authority. */
  predicate NetlocAllowed(allowed: string -> bool, netloc: string) {
    netloc == "" || (!BracketsMismatch(netloc) && allowed(netloc))
  }

  /** The authority, if any, and what follows it. */
  function SplitNetloc(s: string): (r: (string, string)) {
    if StartsWithSlashes(s) then
      var end := NetlocEnd(s[2..]);
      (s[2..][..end], s[2..][end..])
    else
      ("", s)
  }

  function UrlSplit(allowed: string -> bool, url: string): Option<Parts> {
    var (scheme, s) := SplitScheme(Cleaned(url));
    var (netloc, rest) := SplitNetloc(s);
    if NetlocAllowed(allowed, netloc) then Some(SplitRest(scheme, netloc, rest)) else None
  }

  // ----- printing -----

  function Suffix(mark: char, s: string): string {
    if s == "" then "" else [mark] + s
  }

  /** Everything before the query, without the scheme.  The scheme printed here is
      not one of those for which the library insists on an authority. */
  function Hierarchy(netloc: string, path: string): string {
    if netloc != "" then
      "//" + netloc + (if path != "" && path[0] != '/' then "/" + path else path)
    else if StartsWithSlashes(path) then "//" + path
    else path
  }

  function UrlUnsplit(p: Parts): string {
    var front := Hierarchy(p.netloc, p.path) + Suffix('?', p.query) + Suffix('#', p.fragment);
    if p.scheme == "" then front else p.scheme + ":" + front
  }

  // ----- splitting what was printed -----

  predicate Clean(s: string) {
    forall c :: c in s ==> c !in "\t\r\n"
  }

  predicate Without(s: string, marks: string) {
    forall c :: c in s ==> c !in marks
  }

  /** Parts that splitting can produce. */
  predicate WellFormed(allowed: string -> bool, p: Parts) {
    && Clean(p.netloc) && Without(p.netloc, "/?#") && NetlocAllowed(allowed, p.netloc)
    && Clean(p.path) && Without(p.path, "?#") && (p.netloc != "" && p.path != "" ==> p.path[0] == '/')
    && Clean(p.query) && Without(p.query, "#")
    && Clean(p.fragment)
  }

  lemma {:induction false} CutParts(s: string, c: char)
    ensures var (a, b) := Cut(s, c);
            && c !in a && (Clean(s) ==> Clean(a) && Clean(b)) && (a != "" ==> a[0] == s[0])
            && forall d :: d !in s ==> d !in a && d !in b
  {
  }

  lemma {:induction false} NetlocParts(s: string)
    requires Clean(s)
    ensures var (netloc, rest) := SplitNetloc(s);
            Clean(netloc) && Without(netloc, "/?#") && Clean(rest) && (netloc != "" && rest != "" ==> rest[0] in "/?#")
  {
  }

  lemma {:induction false} SplitIsWellFormed(allowed: string -> bool, url: string)
    requires UrlSplit(allowed, url).Some?
    ensures WellFormed(allowed, UrlSplit(allowed, url).value)
  {
    var (scheme, s) := SplitScheme(Cleaned(url));
    var (netloc, rest) := SplitNetloc(s);
    NetlocParts(s);
    CutParts(rest, '#');
    CutParts(Cut(rest, '#').0, '?');
  }

  /** A part and the mark before it; an empty part may go without. */
  predicate Marked(text: string, mark: string, part: string) {
    text == mark + part || (text == "" && part == "")
  }

  lemma {:induction false} CutLosesNothing(s: string, c: char) returns (tail: string)
    ensures s == Cut(s, c).0 + tail && Marked(tail, [c], Cut(s, c).1)
  {
    tail := s[Find(s, c)..];
  }

  lemma {:induction false} SchemeLosesNothing(s: string) returns (head: string)
    ensures var (scheme, rest) := SplitScheme(s);
            s == head + rest && (head == "" == scheme || Lower(head) == scheme + ":")
  {
    head := if HasScheme(s) then s[..Find(s, ':') + 1] else "";
  }

  lemma {:induction false} NetlocLosesNothing(s: string) returns (authority: string)
    ensures var (netloc, rest) := SplitNetloc(s);
            s == authority + rest && Marked(authority, "//", netloc)
  {
    var (netloc, rest) := SplitNetloc(s);
    authority := if StartsWithSlashes(s) then "//" + netloc else "";
  }

  /** `p` is `text` taken apart, up to the case of the scheme and the marks of
      empty parts. */
  ghost predicate TakenApart(text: string, p: Parts, head: string, authority: string, query: string, fragment: string) {
    && text == head + authority + p.path + query + fragment
    && (head == "" == p.scheme || Lower(head) == p.scheme + ":")
    && Marked(authority, "//", p.netloc) && Marked(query, "?", p.query) && Marked(fragment, "#", p.fragment)
  }

  lemma {:induction false} Assembled(
    s: string, p: Parts, head: string, s1: string, authority: string, s2: string, query: string, fragment: string)
    requires s == head + s1 && s1 == authority + s2 && s2 == p.path + query + fragment
    requires head == "" == p.scheme || Lower(head) == p.scheme + ":"
    requires Marked(authority, "//", p.netloc) && Marked(query, "?", p.query) && Marked(fragment, "#", p.fragment)
    ensures TakenApart(s, p, head, authority, query, fragment)
  {
    assert head + (authority + (p.path + query + fragment)) == head + authority + p.path + query + fragment;
  }

  lemma {:induction false} TextIsTakenApart(s: string)
    ensures var (scheme, s1) := SplitScheme(s);
            var (netloc, s2) := SplitNetloc(s1);
            exists head, authority, query, fragment ::
              TakenApart(s, SplitRest(scheme, netloc, s2), head, authority, query, fragment)
  {
    var (scheme, s1) := SplitScheme(s);
    var (netloc, s2) := SplitNetloc(s1);
    var head := SchemeLosesNothing(s);
    var authority := NetlocLosesNothing(s1);
    var query, fragment := RestLosesNothing(scheme, netloc, s2);
    Assembled(s, SplitRest(scheme, netloc, s2), head, s1, authority, s2, query, fragment);
  }

  /** Splitting loses nothing of the cleaned text. */
  lemma {:induction false} SplitLosesNothing(allowed: string -> bool, url: string)
    requires UrlSplit(allowed, url).Some?
    ensures exists head, authority, query, fragment ::
              TakenApart(Cleaned(url), UrlSplit(allowed, url).value, head, authority, query, fragment)
  {
    TextIsTakenApart(Cleaned(url));
  }

  lemma {:induction false} RestLosesNothing(scheme: string, netloc: string, rest: string)
    returns (query: string, fragment: string)
    ensures var p := SplitRest(scheme, netloc, rest);
            && p.scheme == scheme && p.netloc == netloc
            && rest == p.path + query + fragment && Marked(query, "?", p.query) && Marked(fragment, "#", p.fragment)
  {
    fragment := CutLosesNothing(rest, '#');
    query := CutLosesNothing(Cut(rest, '#').0, '?');
  }

  lemma {:induction false} CleanTextStays(s: string)
    requires Clean(s) && (s != "" ==> s[0] > ' ')
    ensures Cleaned(s) == s
  {
    NoBreaksToRemove(s);
  }

  lemma {:induction false} NoBreaksToRemove(s: string)
    requires Clean(s)
    ensures WithoutBreaks(s) == s
  {
    if s != "" {
      NoBreaksToRemove(s[1..]);
    }
  }

  lemma {:induction false} CutAtTheMark(s: string, c: char, tail: string, t: string)
    requires c !in s && Marked(tail, [c], t)
    ensures Cut(s + tail, c) == (s, t)
  {
    FindAfter(s, c, t);
    if tail == "" {
      assert s + tail == s;
    } else {
      var u := s + [c] + t;
      assert s + tail == u;
      assert u[..|s|] == s && u[|s| + 1..] == t;
    }
  }

  lemma {:induction false} RestReadsAsWritten(
    scheme: string, netloc: string, path: string, q: string, query: string, f: string, fragment: string)
    requires Without(path, "?#") && Without(query, "#")
    requires Marked(q, "?", query) && Marked(f, "#", fragment)
    ensures SplitRest(scheme, netloc, path + (q + f)) == Parts(scheme, netloc, path, query, fragment)
  {
    assert path + (q + f) == path + q + f;
    CutAtTheMark(path, '?', q, query);
    CutAtTheMark(path + q, '#', f, fragment);
  }

  lemma {:induction false} NetlocEnds(netloc: string, tail: string)
    requires Without(netloc, "/?#") && (tail != "" ==> tail[0] in "/?#")
    ensures NetlocEnd(netloc + tail) == |netloc|
  {
    if netloc == "" {
      assert netloc + tail == tail;
    } else {
      NetlocEnds(netloc[1..], tail);
      assert (netloc + tail)[1..] == netloc[1..] + tail;
    }
  }

  /** A scheme that splitting would read back as it stands. */
  predicate IsScheme(s: string) {
    s != "" && IsLetter(s[0]) && Lower(s) == s && forall j :: 0 <= j < |s| ==> IsSchemeChar(s[j])
  }

  lemma {:induction false} SchemeSplits(scheme: string, front: string)
    requires IsScheme(scheme)
    ensures SplitScheme(scheme + ":" + front) == (scheme, front)
  {
    var s := scheme + [':'] + front;
    assert s == scheme + ":" + front;
    FindAfter(scheme, ':', front);
    assert s[..|scheme|] == scheme && s[|scheme| + 1..] == front;
  }

  lemma {:induction false} AuthoritySplits(netloc: string, rest: string)
    requires Without(netloc, "/?#") && (rest != "" ==> rest[0] in "/?#")
    ensures SplitNetloc("//" + (netloc + rest)) == (netloc, rest)
  {
    var s := "//" + (netloc + rest);
    assert s[2..] == netloc + rest;
    NetlocEnds(netloc, rest);
    assert (netloc + rest)[..|netloc|] == netloc && (netloc + rest)[|netloc|..] == rest;
  }

  lemma {:induction false} WithAuthority(netloc: string, path: string, tail: string)
    requires netloc != "" || StartsWithSlashes(path)
    requires netloc != "" && path != "" ==> path[0] == '/'
    ensures Hierarchy(netloc, path) + tail == "//" + (netloc + (path + tail))
  {
    if netloc == "" {
      assert netloc + (path + tail) == path + tail;
    }
    assert Hierarchy(netloc, path) == "//" + netloc + path;
  }

  lemma {:induction false} WithoutAuthority(path: string, tail: string)
    requires !StartsWithSlashes(path)
    ensures Hierarchy("", path) + tail == path + tail
  {
  }

  lemma {:induction false} HierarchySplits(netloc: string, path: string, tail: string)
    requires Without(netloc, "/?#") && (netloc != "" && path != "" ==> path[0] == '/')
    requires tail != "" ==> tail[0] in "?#"
    ensures SplitNetloc(Hierarchy(netloc, path) + tail) == (netloc, path + tail)
  {
    if netloc != "" || StartsWithSlashes(path) {
      WithAuthority(netloc, path, tail);
      AuthoritySplits(netloc, path + tail);
    } else {
      WithoutAuthority(path, tail);
      assert !StartsWithSlashes(path + tail);
    }
  }

  lemma {:induction false} CleanJoins(s: string, t: string)
    requires Clean(s) && Clean(t)
    ensures Clean(s + t)
  {
  }

  lemma {:induction false} HierarchyIsClean(netloc: string, path: string)
    requires Clean(netloc) && Clean(path)
    ensures Clean(Hierarchy(netloc, path))
  {
  }

  lemma {:induction false} SchemeIsClean(scheme: string)
    requires IsScheme(scheme)
    ensures Clean(scheme) && scheme[0] > ' '
  {
    forall i | 0 <= i < |scheme| ensures scheme[i] !in "\t\r\n" {
      assert IsSchemeChar(scheme[i]);
    }
  }

  lemma {:induction false} PrintedIsClean(scheme: string, netloc: string, path: string, tail: string)
    requires IsScheme(scheme) && Clean(netloc) && Clean(path) && Clean(tail)
    ensures Cleaned(scheme + ":" + (Hierarchy(netloc, path) + tail)) == scheme + ":" + (Hierarchy(netloc, path) + tail)
  {
    SchemeIsClean(scheme);
    HierarchyIsClean(netloc, path);
    CleanJoins(Hierarchy(netloc, path), tail);
    CleanJoins(scheme, ":");
    CleanJoins(scheme + ":", Hierarchy(netloc, path) + tail);
    CleanTextStays(scheme + ":" + (Hierarchy(netloc, path) + tail));
  }

  lemma {:induction false} PrintedTextSplits(
    allowed: string -> bool, scheme: string, netloc: string, path: string, tail: string)
    requires IsScheme(scheme) && Clean(netloc) && Clean(path) && Clean(tail)
    requires Without(netloc, "/?#") && (netloc != "" && path != "" ==> path[0] == '/') && NetlocAllowed(allowed, netloc)
    requires tail != "" ==> tail[0] in "?#"
    ensures UrlSplit(allowed, scheme + ":" + (Hierarchy(netloc, path) + tail)) ==
            Some(SplitRest(scheme, netloc, path + tail))
  {
    PrintedIsClean(scheme, netloc, path, tail);
    SchemeSplits(scheme, Hierarchy(netloc, path) + tail);
    HierarchySplits(netloc, path, tail);
  }

  lemma {:induction false} SuffixesAreClean(query: string, fragment: string)
    requires Clean(query) && Clean(fragment)
    ensures Clean(Suffix('?', query) + Suffix('#', fragment))
    ensures var tail := Suffix('?', query) + Suffix('#', fragment); tail != "" ==> tail[0] in "?#"
  {
    CleanJoins(Suffix('?', query), Suffix('#', fragment));
  }

  lemma {:induction false} UnsplitForm(p: Parts)
    requires p.scheme != ""
    ensures UrlUnsplit(p) ==
            p.scheme + ":" + (Hierarchy(p.netloc, p.path) + (Suffix('?', p.query) + Suffix('#', p.fragment)))
  {
    assert Hierarchy(p.netloc, p.path) + Suffix('?', p.query) + Suffix('#', p.fragment)
        == Hierarchy(p.netloc, p.path) + (Suffix('?', p.query) + Suffix('#', p.fragment));
  }

  /** Splitting what was printed gives the parts back. */
  lemma {:induction false} PrintedPartsSplit(allowed: string -> bool, p: Parts)
    requires IsScheme(p.scheme) && WellFormed(allowed, p)
    ensures UrlSplit(allowed, UrlUnsplit(p)) == Some(p)
  {
    var tail := Suffix('?', p.query) + Suffix('#', p.fragment);
    UnsplitForm(p);
    SuffixesAreClean(p.query, p.fragment);
    PrintedTextSplits(allowed, p.scheme, p.netloc, p.path, tail);
    RestReadsAsWritten(
      p.scheme, p.netloc, p.path, Suffix('?', p.query), p.query, Suffix('#', p.fragment), p.fragment);
  }

  // ----- URLs as they are written -----

  /** `lower` is the scheme `text` in lower case. */
  ghost predicate Spelled(text: string, lower: string) {
    && |text| == |lower|
    && forall i :: 0 <= i < |text| ==>
         || (lower[i] == text[i] && !('A' <= text[i] <= 'Z'))
         || exists n :: 0 <= n < 26 && UpperLower(n, text[i], lower[i])
  }

  predicate UpperLower(n: int, upper: char, lower: char) {
    0 <= n < 26 && upper == "ABCDEFGHIJKLMNOPQRSTUVWXYZ"[n] && lower == "abcdefghijklmnopqrstuvwxyz"[n]
  }

  lemma {:induction false} SpelledIsLower(text: string, lower: string)
    requires Spelled(text, lower)
    ensures Lower(text) == lower
  {
    forall i | 0 <= i < |text| ensures Lower(text)[i] == lower[i] {
      if exists n :: 0 <= n < 26 && UpperLower(n, text[i], lower[i]) {
        var n :| 0 <= n < 26 && UpperLower(n, text[i], lower[i]);
        AlphabetsMatch(n);
      }
    }
  }

  lemma {:induction false} AlphabetsMatch(n: nat)
    requires n < 26
    ensures "ABCDEFGHIJKLMNOPQRSTUVWXYZ"[n] == (65 + n) as char
    ensures "abcdefghijklmnopqrstuvwxyz"[n] == (97 + n) as char
  {
  }

  /** Leading spaces and control characters go, tabs and line breaks go wherever
      they stand, and nothing else does. */
  lemma {:induction false} CleaningMeans(a: string, c: char, b: string)
    ensures c == '\t' || c == '\r' || c == '\n' ==> Cleaned(a + [c] + b) == Cleaned(a + b)
    ensures c <= ' ' && (forall d :: d in a ==> d <= ' ') ==> Cleaned(a + [c] + b) == Cleaned(b)
    ensures (a != "" ==> a[0] > ' ') && '\t' !in a && '\r' !in a && '\n' !in a ==> Cleaned(a) == a
  {
    if c == '\t' || c == '\r' || c == '\n' {
      BreakIsRemoved(a, c, b);
    }
    if c <= ' ' && forall d :: d in a ==> d <= ' ' {
      assert a + [c] + b == (a + [c]) + b;
      LeadIsStripped(a + [c], b);
    }
    if (a != "" ==> a[0] > ' ') && '\t' !in a && '\r' !in a && '\n' !in a {
      CleanTextStays(a);
    }
  }

  lemma {:induction false} LeadIsStripped(lead: string, s: string)
    requires forall d :: d in lead ==> d <= ' '
    ensures Stripped(lead + s) == Stripped(s)
  {
    if lead == "" {
      assert lead + s == s;
    } else {
      assert lead[0] in lead && forall d :: d in lead[1..] ==> d in lead;
      LeadIsStripped(lead[1..], s);
      assert (lead + s)[1..] == lead[1..] + s;
    }
  }

  lemma {:induction false} BreaksGo(a: string, c: char, b: string)
    requires c in "\t\r\n"
    ensures WithoutBreaks(a + [c] + b) == WithoutBreaks(a + b)
  {
    if a == "" {
      assert (a + [c] + b)[1..] == b && a + b == b;
    } else {
      BreaksGo(a[1..], c, b);
      assert (a + [c] + b)[1..] == a[1..] + [c] + b;
      assert (a + b)[1..] == a[1..] + b;
    }
  }

  lemma {:induction false} BreakIsRemoved(a: string, c: char, b: string)
    requires c in "\t\r\n"
    ensures Cleaned(a + [c] + b) == Cleaned(a + b)
  {
    if a == "" {
      assert (a + [c] + b)[1..] == b && a + b == b;
    } else if a[0] <= ' ' {
      BreakIsRemoved(a[1..], c, b);
      assert (a + [c] + b)[1..] == a[1..] + [c] + b;
      assert (a + b)[1..] == a[1..] + b;
    } else {
      BreaksGo(a, c, b);
    }
  }

  /** Text that can stand before the colon. */
  predicate SchemeText(text: string) {
    && text != "" && ('a' <= text[0] <= 'z' || 'A' <= text[0] <= 'Z')
    && forall c :: c in text ==>
         'a' <= c <= 'z' || 'A' <= c <= 'Z' || '0' <= c <= '9' || c == '+' || c == '-' || c == '.'
  }

  lemma {:induction false} SchemeReadsAsWritten(text: string, lower: string, front: string)
    requires SchemeText(text) && Spelled(text, lower)
    ensures SplitScheme(text + ":" + front) == (lower, front)
  {
    var s := text + [':'] + front;
    assert s == text + ":" + front;
    FindAfter(text, ':', front);
    assert s[..|text|] == text && s[|text| + 1..] == front;
    SpelledIsLower(text, lower);
    forall j | 0 <= j < |text| ensures IsSchemeChar(s[j]) {
      assert s[j] in text;
    }
  }

  lemma {:induction false} SchemeIsText(s: string) returns (text: string, rest: string)
    requires HasScheme(s)
    ensures SchemeText(text) && s == text + ":" + rest && SplitScheme(s).0 != ""
  {
    var i := Find(s, ':');
    text, rest := s[..i], s[i + 1..];
    assert s == text + [':'] + rest;
    forall c | c in text
      ensures 'a' <= c <= 'z' || 'A' <= c <= 'Z' || '0' <= c <= '9' || c == '+' || c == '-' || c == '.'
    {
      var j :| 0 <= j < i && s[j] == c;
      assert IsSchemeChar(s[j]);
    }
  }

  lemma {:induction false} TextIsScheme(text: string, rest: string)
    requires SchemeText(text)
    ensures HasScheme(text + ":" + rest)
  {
    var s := text + [':'] + rest;
    assert ':' !in text && s == text + ":" + rest;
    FindAfter(text, ':', rest);
    forall j | 0 <= j < |text| ensures IsSchemeChar(s[j]) {
      assert s[j] in text;
    }
  }

  /** A URL has a scheme exactly if its cleaned text begins with text that can stand
      before the colon, and a colon. */
  lemma {:induction false} HasASchemeExactlyWhen(allowed: string -> bool, url: string)
    requires UrlSplit(allowed, url).Some?
    ensures UrlSplit(allowed, url).value.scheme != "" <==>
            exists text, rest :: SchemeText(text) && Cleaned(url) == text + ":" + rest
  {
    var s := Cleaned(url);
    if HasScheme(s) {
      var text, rest := SchemeIsText(s);
    }
    forall text, rest | SchemeText(text) && s == text + ":" + rest ensures HasScheme(s) {
      TextIsScheme(text, rest);
    }
  }

  lemma {:induction false} WrittenIsClean(text: string, front: string)
    requires SchemeText(text) && Clean(front)
    ensures Cleaned(text + ":" + front) == text + ":" + front
  {
    assert Clean(text);
    CleanJoins(text, ":");
    CleanJoins(text + ":", front);
    CleanTextStays(text + ":" + front);
  }

  lemma {:induction false} MarkedIsClean(tail: string, mark: string, part: string)
    requires Marked(tail, mark, part) && Clean(mark) && Clean(part)
    ensures Clean(tail)
  {
    CleanJoins(mark, part);
  }

  /** A URL is read as it is written: the scheme in either case before the colon,
      the authority after two slashes, the query and the fragment, if any, after
      their marks.  It is refused when its authority is not allowed. */
  lemma {:induction false} UrlReadsAsWritten(
    allowed: string -> bool, text: string, lower: string, netloc: string, path: string,
    q: string, query: string, f: string, fragment: string)
    requires SchemeText(text) && Spelled(text, lower)
    requires Clean(netloc) && Clean(path) && Clean(query) && Clean(fragment)
    requires Without(netloc, "/?#") && Without(path, "?#") && Without(query, "#") && (path != "" ==> path[0] == '/')
    requires (q == "?" + query || (q == "" && query == "")) && (f == "#" + fragment || (f == "" && fragment == ""))
    ensures UrlSplit(allowed, text + ":" + ("//" + (netloc + (path + (q + f))))) ==
            if netloc == "" || (('[' in netloc <==> ']' in netloc) && allowed(netloc))
            then Some(Parts(lower, netloc, path, query, fragment)) else None
  {
    var rest := path + (q + f);
    var front := "//" + (netloc + rest);
    MarkedIsClean(q, "?", query);
    MarkedIsClean(f, "#", fragment);
    CleanJoins(q, f);
    CleanJoins(path, q + f);
    CleanJoins(netloc, rest);
    CleanJoins("//", netloc + rest);
    WrittenIsClean(text, front);
    SchemeReadsAsWritten(text, lower, front);
    AuthoritySplits(netloc, rest);
    RestReadsAsWritten(lower, netloc, path, q, query, f, fragment);
  }

  /** Parts are printed in this order, with their marks: two slashes before an
      authority, and before a path that would be read as one. */
  lemma {:induction false} PartsPrintAs(p: Parts)
    requires p.scheme != ""
    ensures var tail := (if p.query == "" then "" else "?" + p.query)
                        + (if p.fragment == "" then "" else "#" + p.fragment);
            UrlUnsplit(p) == p.scheme + ":" + (
              if p.netloc == "" then
                (if |p.path| >= 2 && p.path[..2] == "//" then "//" + (p.path + tail) else p.path + tail)
              else
                "//" + (p.netloc + ((if p.path == "" || p.path[0] == '/' then p.path else "/" + p.path) + tail)))
  {
    var tail := Suffix('?', p.query) + Suffix('#', p.fragment);
    UnsplitForm(p);
    if p.netloc == "" {
      assert StartsWithSlashes(p.path) <==> |p.path| >= 2 && p.path[..2] == "//";
      if StartsWithSlashes(p.path) {
        WithAuthority("", p.path, tail);
        assert "" + (p.path + tail) == p.path + tail;
      } else {
        WithoutAuthority(p.path, tail);
      }
    } else {
      var path := if p.path == "" || p.path[0] == '/' then p.path else "/" + p.path;
      assert Hierarchy(p.netloc, p.path) == Hierarchy(p.netloc, path);
      WithAuthority(p.netloc, path, tail);
    }
  }
}
