/**
 The database URL in the form that SQLAlchemy's asyncpg driver takes, with the
 two libpq options that it does not take cut out of the query
 (`build_async_url`).
 */
module DatabaseUrl {
  import opened Options
  import opened FormEncoding
  import opened UrlParts

  /** What the code leaves to the library: the text encoding, and the checks that
      some authorities fail. */
  datatype Library = Library(codec: Codec, allowed: string -> bool)

  /** The ValueErrors, in the order in which they are raised. */
  datatype Complaint =
    | EmptyUrl
    | InvalidNetloc
    | UnsupportedScheme
    | SeveralSslModes
    | UnsupportedSslMode(mode: string)

  datatype AsyncUrl = AsyncUrl(url: string, sslMode: Option<string>)

  const SSL_MODES := {"disable", "allow", "prefer", "require", "verify-ca", "verify-full"}

  const ASYNC := "postgresql+asyncpg"

  predicate IsPostgres(scheme: string) {
    scheme == "postgres" || scheme == "postgresql" || scheme == ASYNC
  }

  predicate IsOption(p: Pair) {
    p.0 == "sslmode" || p.0 == "channel_binding"
  }

  function Retained(pairs: seq<Pair>): seq<Pair> {
    if pairs == [] then []
    else (if IsOption(pairs[0]) then [] else [pairs[0]]) + Retained(pairs[1..])
  }

  function SslModes(pairs: seq<Pair>): seq<string> {
    if pairs == [] then []
    else (if pairs[0].0 == "sslmode" then [pairs[0].1] else []) + SslModes(pairs[1..])
  }

  function PairsOf(lib: Library, parts: Parts): seq<Pair> {
    ParseQsl(lib.codec, parts.query)
  }

  /** The parts with the driver's scheme and the retained pairs alone. */
  function Rewritten(lib: Library, parts: Parts): Parts {
    parts.(scheme := ASYNC, query := UrlEncode(lib.codec, Retained(PairsOf(lib, parts))))
  }

  function Rewrite(lib: Library, parts: Parts): Result<AsyncUrl, Complaint> {
    var modes := SslModes(PairsOf(lib, parts));
    if !IsPostgres(parts.scheme) then Err(UnsupportedScheme)
    else if |modes| > 1 then Err(SeveralSslModes)
    else if |modes| == 1 && modes[0] !in SSL_MODES then Err(UnsupportedSslMode(modes[0]))
    else Ok(AsyncUrl(UrlUnsplit(Rewritten(lib, parts)), if modes == [] then None else Some(modes[0])))
  }

  function AsyncUrlOf(lib: Library, url: string): Result<AsyncUrl, Complaint> {
    if url == "" then Err(EmptyUrl)
    else match UrlSplit(lib.allowed, url)
         case None => Err(InvalidNetloc)
         case Some(parts) => Rewrite(lib, parts)
  }

  lemma {:induction false} FiltersGrow(pairs: seq<Pair>, i: nat)
    requires i < |pairs|
    ensures Retained(pairs[..i + 1]) == Retained(pairs[..i]) + (if IsOption(pairs[i]) then [] else [pairs[i]])
    ensures SslModes(pairs[..i + 1]) == SslModes(pairs[..i]) + (if pairs[i].0 == "sslmode" then [pairs[i].1] else [])
  {
    if i > 0 {
      FiltersGrow(pairs[1..], i - 1);
      assert pairs[..i + 1][1..] == pairs[1..][..i];
      assert pairs[..i][1..] == pairs[1..][..i - 1];
    }
  }

  method BuildAsyncUrl(lib: Library, url: string) returns (r: Result<AsyncUrl, Complaint>)
    ensures r == AsyncUrlOf(lib, url)
  {
    if url == "" {
      return Err(EmptyUrl);
    }
    var split := UrlSplit(lib.allowed, url);
    if split == None {
      return Err(InvalidNetloc);
    }
    var parsed := split.value;
    if parsed.scheme == "postgres" || parsed.scheme == "postgresql" {
      parsed := parsed.(scheme := ASYNC);
    } else if parsed.scheme != ASYNC {
      return Err(UnsupportedScheme);
    }
    var sslModes: seq<string>, retainedParams: seq<Pair> := [], [];
    var pairs := ParseQsl(lib.codec, parsed.query);
    for i := 0 to |pairs|
      invariant sslModes == SslModes(pairs[..i])
      invariant retainedParams == Retained(pairs[..i])
    {
      FiltersGrow(pairs, i);
      var (key, value) := pairs[i];
      if key == "sslmode" {
        sslModes := sslModes + [value];
      } else if key != "channel_binding" {
        retainedParams := retainedParams + [(key, value)];
      }
    }
    assert pairs[..|pairs|] == pairs;
    if |sslModes| > 1 {
      return Err(SeveralSslModes);
    }
    var sslMode := if sslModes == [] then None else Some(sslModes[0]);
    if sslMode.Some? && sslMode.value !in SSL_MODES {
      return Err(UnsupportedSslMode(sslMode.value));
    }
    var cleanQuery := UrlEncode(lib.codec, retainedParams);
    var cleanUrl := UrlUnsplit(parsed.(query := cleanQuery));
    r := Ok(AsyncUrl(cleanUrl, sslMode));
  }

  // ----- which URLs are accepted -----

  predicate AtMostOneSslMode(pairs: seq<Pair>) {
    forall i, j :: 0 <= i < j < |pairs| ==> pairs[i].0 != "sslmode" || pairs[j].0 != "sslmode"
  }

  lemma {:induction false} SslModesAre(pairs: seq<Pair>)
    ensures SslModes(pairs) == [] <==> forall i :: 0 <= i < |pairs| ==> pairs[i].0 != "sslmode"
    ensures |SslModes(pairs)| <= 1 <==> AtMostOneSslMode(pairs)
    ensures |SslModes(pairs)| == 1 ==> exists i :: 0 <= i < |pairs| && pairs[i] == ("sslmode", SslModes(pairs)[0])
  {
    if pairs != [] {
      SslModesAre(pairs[1..]);
      assert forall i :: 0 < i < |pairs| ==> pairs[i] == pairs[1..][i - 1];
    }
  }

  /** A mode that PostgreSQL knows. */
  predicate IsMode(mode: string) {
    || mode == "disable" || mode == "allow" || mode == "prefer"
    || mode == "require" || mode == "verify-ca" || mode == "verify-full"
  }

  lemma {:induction false} ModeSettled(lib: Library, parts: Parts)
    ensures Rewrite(lib, parts).Ok? <==>
            && (parts.scheme == "postgres" || parts.scheme == "postgresql" || parts.scheme == "postgresql+asyncpg")
            && AtMostOneSslMode(PairsOf(lib, parts))
            && forall p :: p in PairsOf(lib, parts) && p.0 == "sslmode" ==> IsMode(p.1)
    ensures Rewrite(lib, parts).Ok? ==>
              var mode := Rewrite(lib, parts).value.sslMode;
              && (forall p :: p in PairsOf(lib, parts) && p.0 == "sslmode" ==> mode == Some(p.1))
              && (mode.Some? ==> ("sslmode", mode.value) in PairsOf(lib, parts))
  {
    var pairs := PairsOf(lib, parts);
    SslModesAre(pairs);
    if AtMostOneSslMode(pairs) && SslModes(pairs) != [] {
      var mode := SslModes(pairs)[0];
      var i :| 0 <= i < |pairs| && pairs[i] == ("sslmode", mode);
      assert forall p :: p in pairs && p.0 == "sslmode" ==> p == pairs[i];
      assert mode in SSL_MODES <==> IsMode(mode);
    }
  }

  /** A non-empty URL that splits is accepted exactly when it has one of the three
      schemes and its decoded query names sslmode at most once, and with one of the
      six modes; that mode is returned, as it stands, and none if there is none. */
  lemma {:induction false} AcceptedExactlyWhen(lib: Library, url: string)
    ensures AsyncUrlOf(lib, url).Ok? <==>
            && url != "" && UrlSplit(lib.allowed, url).Some?
            && var parts := UrlSplit(lib.allowed, url).value;
               var pairs := PairsOf(lib, parts);
               && (parts.scheme == "postgres" || parts.scheme == "postgresql"
                   || parts.scheme == "postgresql+asyncpg")
               && (forall i, j :: 0 <= i < j < |pairs| ==> pairs[i].0 != "sslmode" || pairs[j].0 != "sslmode")
               && (forall p :: p in pairs && p.0 == "sslmode" ==>
                     || p.1 == "disable" || p.1 == "allow" || p.1 == "prefer"
                     || p.1 == "require" || p.1 == "verify-ca" || p.1 == "verify-full")
    ensures AsyncUrlOf(lib, url).Ok? ==>
              var pairs, mode := PairsOf(lib, UrlSplit(lib.allowed, url).value), AsyncUrlOf(lib, url).value.sslMode;
              && (forall p :: p in pairs && p.0 == "sslmode" ==> mode == Some(p.1))
              && (mode.Some? ==> ("sslmode", mode.value) in pairs)
  {
    if url != "" && UrlSplit(lib.allowed, url).Some? {
      ModeSettled(lib, UrlSplit(lib.allowed, url).value);
    }
  }

  /** Each error is raised for its own reason, and only when all earlier checks have
      passed. */
  lemma {:induction false} ComplaintMeans(lib: Library, url: string, c: Complaint)
    requires AsyncUrlOf(lib, url) == Err(c)
    ensures c == EmptyUrl <==> url == ""
    ensures c == InvalidNetloc <==> url != "" && UrlSplit(lib.allowed, url) == None
    ensures c != EmptyUrl && c != InvalidNetloc ==>
              var parts := UrlSplit(lib.allowed, url).value;
              var pairs := PairsOf(lib, parts);
              match c
              case SeveralSslModes => IsPostgres(parts.scheme) && !AtMostOneSslMode(pairs)
              case UnsupportedSslMode(mode) =>
                IsPostgres(parts.scheme) && AtMostOneSslMode(pairs) && ("sslmode", mode) in pairs && !IsMode(mode)
              case _ => !IsPostgres(parts.scheme)
  {
    if url != "" && UrlSplit(lib.allowed, url).Some? {
      SslModesAre(PairsOf(lib, UrlSplit(lib.allowed, url).value));
    }
  }

  // ----- what is kept -----

  /** `all` is `a` and `b` in one sequence, each in its own order. */
  ghost predicate Merges(all: seq<Pair>, a: seq<Pair>, b: seq<Pair>) {
    if all == [] then a == [] && b == []
    else
      || (a != [] && a[0] == all[0] && Merges(all[1..], a[1..], b))
      || (b != [] && b[0] == all[0] && Merges(all[1..], a, b[1..]))
  }

  predicate NoOptions(pairs: seq<Pair>) {
    forall p :: p in pairs ==> p.0 != "sslmode" && p.0 != "channel_binding"
  }

  predicate OnlyOptions(pairs: seq<Pair>) {
    forall p :: p in pairs ==> p.0 == "sslmode" || p.0 == "channel_binding"
  }

  /** The retained pairs are the one way to take the query's pairs apart into
      options and others without changing the order of either. */
  lemma {:induction false} RetainedIsTheRest(pairs: seq<Pair>, kept: seq<Pair>)
    ensures kept == Retained(pairs) <==>
            NoOptions(kept) && exists dropped :: OnlyOptions(dropped) && Merges(pairs, kept, dropped)
  {
    var dropped := RetainedMerges(pairs);
    if NoOptions(kept) && exists dropped :: OnlyOptions(dropped) && Merges(pairs, kept, dropped) {
      var other :| OnlyOptions(other) && Merges(pairs, kept, other);
      MergeIsUnique(pairs, kept, other);
    }
  }

  lemma {:induction false} RetainedMerges(pairs: seq<Pair>) returns (dropped: seq<Pair>)
    ensures NoOptions(Retained(pairs)) && OnlyOptions(dropped) && Merges(pairs, Retained(pairs), dropped)
  {
    if pairs == [] {
      dropped := [];
    } else {
      var rest := RetainedMerges(pairs[1..]);
      if IsOption(pairs[0]) {
        dropped := [pairs[0]] + rest;
        assert dropped[1..] == rest && Retained(pairs) == Retained(pairs[1..]);
      } else {
        dropped := rest;
        assert Retained(pairs)[1..] == Retained(pairs[1..]);
      }
    }
  }

  lemma {:induction false} MergeIsUnique(pairs: seq<Pair>, kept: seq<Pair>, dropped: seq<Pair>)
    requires NoOptions(kept) && OnlyOptions(dropped) && Merges(pairs, kept, dropped)
    ensures kept == Retained(pairs)
  {
    if pairs != [] {
      if IsOption(pairs[0]) {
        assert kept != [] ==> !IsOption(kept[0]);
        MergeIsUnique(pairs[1..], kept, dropped[1..]);
      } else {
        assert dropped != [] ==> IsOption(dropped[0]);
        MergeIsUnique(pairs[1..], kept[1..], dropped);
      }
    }
  }

  // ----- what is printed -----

  lemma {:induction false} AsyncIsAScheme()
    ensures IsScheme(ASYNC)
  {
    assert forall j :: 0 <= j < |ASYNC| ==> IsSchemeChar(ASYNC[j]);
    assert Lower(ASYNC) == ASYNC;
  }

  lemma {:induction false} RewrittenIsWellFormed(lib: Library, parts: Parts)
    requires WellFormed(lib.allowed, parts)
    ensures WellFormed(lib.allowed, Rewritten(lib, parts))
  {
    PrintedQueryIsClean(lib.codec, Retained(PairsOf(lib, parts)));
  }

  /** The printed URL has the driver's scheme and, apart from the query, the parts
      of the original; form-decoding its query yields exactly the retained pairs of
      the original query, whatever escapes that query contains. */
  lemma {:induction false} PrintedUrlReadsBack(lib: Library, url: string)
    requires lib.codec.Valid()
    ensures AsyncUrlOf(lib, url).Ok? ==>
              var parts := UrlSplit(lib.allowed, url).value;
              var printed := Rewritten(lib, parts);
              && AsyncUrlOf(lib, url).value.url == UrlUnsplit(printed)
              && UrlSplit(lib.allowed, UrlUnsplit(printed)) == Some(printed)
              && printed == Parts(ASYNC, parts.netloc, parts.path, printed.query, parts.fragment)
              && PairsOf(lib, printed) == Retained(PairsOf(lib, parts))
  {
    if AsyncUrlOf(lib, url).Ok? {
      var parts := UrlSplit(lib.allowed, url).value;
      SplitIsWellFormed(lib.allowed, url);
      RewrittenIsWellFormed(lib, parts);
      AsyncIsAScheme();
      PrintedPartsSplit(lib.allowed, Rewritten(lib, parts));
      PrintedPairsParse(lib.codec, Retained(PairsOf(lib, parts)));
    }
  }

  /** `all` has `p` as often as its first pair and the rest together. */
  lemma {:induction false} CountFirst(all: seq<Pair>, p: Pair)
    requires all != []
    ensures multiset(all)[p] == (if all[0] == p then 1 else 0) + multiset(all[1..])[p]
  {
    assert all == [all[0]] + all[1..];
  }

  lemma {:induction false} MergeCounts(all: seq<Pair>, a: seq<Pair>, b: seq<Pair>, p: Pair)
    requires Merges(all, a, b)
    ensures multiset(all)[p] == multiset(a)[p] + multiset(b)[p]
  {
    if all != [] {
      CountFirst(all, p);
      if a != [] && a[0] == all[0] && Merges(all[1..], a[1..], b) {
        MergeCounts(all[1..], a[1..], b, p);
        CountFirst(a, p);
      } else {
        MergeCounts(all[1..], a, b[1..], p);
        CountFirst(b, p);
      }
    }
  }

  /** Read back, the query of the printed URL has every pair of the original as
      often as the original, but for those named sslmode or channel_binding, of
      which it has none; and it has the pairs in their order. */
  lemma {:induction false} OnlyTheTwoOptionsGo(lib: Library, url: string, p: Pair)
    requires lib.codec.Valid() && AsyncUrlOf(lib, url).Ok?
    ensures UrlSplit(lib.allowed, AsyncUrlOf(lib, url).value.url).Some?
    ensures var was := ParseQsl(lib.codec, UrlSplit(lib.allowed, url).value.query);
            var now := ParseQsl(lib.codec, UrlSplit(lib.allowed, AsyncUrlOf(lib, url).value.url).value.query);
            && multiset(now)[p] == (if p.0 == "sslmode" || p.0 == "channel_binding" then 0 else multiset(was)[p])
            && exists dropped: seq<Pair> :: Merges(was, now, dropped) &&
                 forall q :: q in dropped ==> q.0 == "sslmode" || q.0 == "channel_binding"
  {
    PrintedUrlReadsBack(lib, url);
    var was := PairsOf(lib, UrlSplit(lib.allowed, url).value);
    var dropped := RetainedMerges(was);
    MergeCounts(was, Retained(was), dropped, p);
  }

  /** A URL as it is usually written, and what becomes of it. */
  lemma {:induction false} UrlIsRewritten(
    lib: Library, text: string, lower: string, netloc: string, path: string,
    q: string, query: string, f: string, fragment: string)
    requires SchemeText(text) && Spelled(text, lower) && netloc != ""
    requires Clean(netloc) && Clean(path) && Clean(query) && Clean(fragment)
    requires Without(netloc, "/?#") && Without(path, "?#") && Without(query, "#") && (path != "" ==> path[0] == '/')
    requires (q == "?" + query || (q == "" && query == "")) && (f == "#" + fragment || (f == "" && fragment == ""))
    ensures var r := AsyncUrlOf(lib, text + ":" + ("//" + (netloc + (path + (q + f)))));
            var kept := UrlEncode(lib.codec, Retained(ParseQsl(lib.codec, query)));
            var tail := (if kept == "" then "" else "?" + kept) + (if fragment == "" then "" else "#" + fragment);
            r.Ok? ==> r.value.url == "postgresql+asyncpg" + ":" + ("//" + (netloc + (path + tail)))
  {
    var url := text + ":" + ("//" + (netloc + (path + (q + f))));
    UrlReadsAsWritten(lib.allowed, text, lower, netloc, path, q, query, f, fragment);
    if AsyncUrlOf(lib, url).Ok? {
      PartsPrintAs(Rewritten(lib, UrlSplit(lib.allowed, url).value));
    }
  }

  lemma {:induction false} RetainedTwice(pairs: seq<Pair>)
    ensures Retained(Retained(pairs)) == Retained(pairs)
    ensures SslModes(Retained(pairs)) == []
  {
    if pairs != [] {
      RetainedTwice(pairs[1..]);
      if IsOption(pairs[0]) {
        assert Retained(pairs) == Retained(pairs[1..]);
      } else {
        assert Retained(pairs)[0] == pairs[0] && Retained(pairs)[1..] == Retained(pairs[1..]);
      }
    }
  }

  lemma {:induction false} RewritingTwice(lib: Library, parts: Parts)
    requires PairsOf(lib, Rewritten(lib, parts)) == Retained(PairsOf(lib, parts))
    ensures Rewrite(lib, Rewritten(lib, parts)) == Ok(AsyncUrl(UrlUnsplit(Rewritten(lib, parts)), None))
  {
    RetainedTwice(PairsOf(lib, parts));
    assert Rewritten(lib, Rewritten(lib, parts)) == Rewritten(lib, parts);
  }

  /** A second application returns the same URL, and no mode. */
  lemma {:induction false} ApplyingTwiceChangesNothing(lib: Library, url: string)
    requires lib.codec.Valid()
    ensures AsyncUrlOf(lib, url).Ok? ==>
              var once := AsyncUrlOf(lib, url).value.url;
              AsyncUrlOf(lib, once) == Ok(AsyncUrl(once, None))
  {
    if AsyncUrlOf(lib, url).Ok? {
      var parts := UrlSplit(lib.allowed, url).value;
      PrintedUrlReadsBack(lib, url);
      RewritingTwice(lib, parts);
      PrintedIsNotEmpty(Rewritten(lib, parts));
    }
  }

  lemma {:induction false} PrintedIsNotEmpty(p: Parts)
    requires p.scheme == ASYNC
    ensures UrlUnsplit(p) != ""
  {
  }
}
