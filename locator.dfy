/** Turning a repository locator (a URL or `owner/name`) into an owner and a name. */
module Locator {
  import opened Wrappers
  import opened Text
  import opened Records

  /** The host marker the URL form is cut at. */
  const HostMarker := "github.com/"

  const InvalidLocator := HttpError(400, "Invalid GitHub repository URL")

  /**
   * The `/`-separated segments the parser looks at: for a locator starting with
   * "http", what follows the last host marker once trailing slashes are gone;
   * otherwise the whole locator.
   */
  function Segments(url: string): (parts: seq<string>)
    ensures |parts| >= 1
    ensures forall k :: 0 <= k < |parts| ==> '/' !in parts[k]
  {
    var rest := if StartsWith(url, "http") then Last(Split(RStrip(url, '/'), HostMarker)) else url;
    SplitCharPieces(rest, '/');
    Split(rest, "/")
  }

  /** The first two segments, or status 400 when there are fewer than two. */
  function ParseRepoUrl(url: string): (r: Result<RepoRef, HttpError>)
    ensures r.Success? ==> '/' !in r.value.owner && '/' !in r.value.name
    ensures r.Failure? ==> r.error == InvalidLocator
  {
    var parts := Segments(url);
    if |parts| < 2 then Failure(InvalidLocator) else Success(RepoRef(parts[0], parts[1]))
  }

  /** Fewer than two segments is the one way to be rejected. */
  lemma FewSegmentsRejected(url: string)
    requires |Segments(url)| < 2
    ensures ParseRepoUrl(url) == Failure(InvalidLocator)
  {
  }

  /** Wherever the host marker occurs, a slash follows "github.com". */
  lemma MarkerMatch(s: string, p: nat)
    requires MatchAt(s, HostMarker, p)
    ensures s[p + 10] == '/' && s[p..p + 10] == "github.com"
  {
    assert s[p..p + 11][10] == s[p + 10];
    assert s[p..p + 10] == s[p..p + 11][..10];
  }

  /** A string without a slash holds no host marker. */
  lemma SlashlessNoMarker(s: string)
    requires '/' !in s
    ensures !Occurs(s, HostMarker)
  {
    if Occurs(s, HostMarker) {
      var p: nat :| MatchAt(s, HostMarker, p);
      MarkerMatch(s, p);
    }
  }

  /** A locator without any slash is rejected with status 400, in either form. */
  lemma ParseRejectsSlashless(url: string)
    requires '/' !in url
    ensures ParseRepoUrl(url) == Failure(InvalidLocator)
  {
    if StartsWith(url, "http") {
      var stripped := RStrip(url, '/');
      assert '/' !in stripped by {
        forall i | 0 <= i < |stripped| ensures stripped[i] != '/' {
          assert stripped[i] == url[i];
        }
      }
      SlashlessNoMarker(stripped);
      SplitAbsent(stripped, HostMarker);
      SplitCharAbsent(stripped, '/');
    } else {
      SplitCharAbsent(url, '/');
    }
  }

  /** A locator not starting with "http" is accepted exactly when it holds a slash. */
  lemma ParseBareAcceptsIffSlash(url: string)
    requires !StartsWith(url, "http")
    ensures ParseRepoUrl(url).Success? <==> '/' in url
  {
    if '/' in url {
      JoinSplit(url, "/");
      SplitCharPieces(url, '/');
    } else {
      ParseRejectsSlashless(url);
    }
  }

  /** Splitting `o/n` followed by nothing or by `/...` yields `o` and `n` first. */
  lemma SplitOwnerName(o: string, n: string, rest: string)
    requires '/' !in o && '/' !in n
    requires rest == [] || rest[0] == '/'
    ensures var parts := Split(o + "/" + n + rest, "/"); |parts| >= 2 && parts[0] == o && parts[1] == n
  {
    assert o + "/" + n + rest == o + ['/'] + (n + rest);
    SplitCharFirst(o, '/', n + rest);
    if rest == [] {
      assert n + rest == n;
      SplitCharAbsent(n, '/');
    } else {
      assert n + rest == n + ['/'] + rest[1..];
      SplitCharFirst(n, '/', rest[1..]);
    }
  }

  /**
   * A locator that does not start with "http" yields its first two
   * `/`-separated segments, whatever follows them.
   */
  lemma ParseBareSegments(o: string, n: string, rest: string)
    requires '/' !in o && '/' !in n
    requires rest == [] || rest[0] == '/'
    requires !StartsWith(o + "/" + n + rest, "http")
    ensures ParseRepoUrl(o + "/" + n + rest) == Success(RepoRef(o, n))
  {
    SplitOwnerName(o, n, rest);
  }

  /** In `o/n` with slash-free `o` and `n`, the only slash is the one after `o`. */
  lemma OnlySlash(o: string, n: string, q: nat)
    requires '/' !in o && '/' !in n
    requires q < |o + "/" + n| && (o + "/" + n)[q] == '/'
    ensures q == |o|
  {
  }

  /** The host marker cannot occur in `o/n` unless `o` ends with "github.com". */
  lemma MarkerAbsent(o: string, n: string)
    requires '/' !in o && '/' !in n
    requires !EndsWith(o, "github.com")
    ensures !Occurs(o + "/" + n, HostMarker)
  {
    var t := o + "/" + n;
    if Occurs(t, HostMarker) {
      var p: nat :| MatchAt(t, HostMarker, p);
      MarkerMatch(t, p);
      OnlySlash(o, n, p + 10);
    }
  }

  /** Trailing slashes after a locator that does not end in one are stripped. */
  lemma StripUrl(t: string, k: nat)
    requires t != [] && t[|t| - 1] != '/'
    ensures RStrip("https://github.com/" + t + Repeat('/', k), '/') == "https://github.com/" + t
  {
    var a := "https://github.com/" + t;
    assert a[|a| - 1] == t[|t| - 1];
    RStripPadded(a, '/', k);
  }

  /** After the host marker, `split(...)[-1]` keeps what follows it when it does not recur. */
  lemma AfterMarker(t: string)
    requires !Occurs(t, HostMarker)
    ensures Last(Split("https://github.com/" + t, HostMarker)) == t
  {
    SplitAbsent(t, HostMarker);
    var marked := HostMarker + t;
    assert marked[..|HostMarker|] == HostMarker && marked[|HostMarker|..] == t;
    assert Split(marked, HostMarker) == [""] + [t];
    assert "https://github.com/" + t == "https://" + marked;
    SplitLastSkip("https://", marked, HostMarker);
  }

  /**
   * The URL form with any number of trailing slashes names the same repository as
   * the bare `o/n` form, for a slash-free owner not ending in "github.com" and a
   * non-empty slash-free name. Both exclusions are real: see
   * `ParseUrlOwnerEndingInMarker` and `ParseUrlEmptyNameRejected`.
   */
  lemma ParseUrlMatchesBare(o: string, n: string, k: nat)
    requires '/' !in o && '/' !in n && n != ""
    requires !EndsWith(o, "github.com")
    ensures ParseRepoUrl("https://github.com/" + o + "/" + n + Repeat('/', k)) == ParseRepoUrl(o + "/" + n)
    ensures ParseRepoUrl(o + "/" + n) == Success(RepoRef(o, n))
  {
    var t := o + "/" + n;
    var url := "https://github.com/" + o + "/" + n + Repeat('/', k);
    assert url == ("https://github.com/" + t) + Repeat('/', k);
    assert t[|t| - 1] == n[|n| - 1];
    assert StartsWith(url, "http") by {
      assert url[..4] == ("https://github.com/" + t)[..4] == "http";
    }
    StripUrl(t, k);
    MarkerAbsent(o, n);
    AfterMarker(t);
    SplitOwnerName(o, n, []);
    assert t + [] == t;
    assert Segments(url) == Split(t, "/");
    if StartsWith(t, "http") {
      RStripPadded(t, '/', 0);
      assert t + Repeat('/', 0) == t;
      SplitAbsent(t, HostMarker);
    }
    assert Segments(t) == Split(t, "/");
  }

  /**
   * The URL form with more path after the name, such as a link to a tree or a
   * file, names the repository of its first two segments, provided no later
   * host marker moves the cut and there are any number of trailing slashes.
   */
  lemma ParseUrlWithPath(o: string, n: string, rest: string, k: nat)
    requires '/' !in o && '/' !in n
    requires rest == [] || rest[0] == '/'
    requires var t := o + "/" + n + rest; t[|t| - 1] != '/'
    requires !Occurs(o + "/" + n + rest, HostMarker)
    ensures ParseRepoUrl("https://github.com/" + o + "/" + n + rest + Repeat('/', k)) == Success(RepoRef(o, n))
  {
    var t := o + "/" + n + rest;
    var url := "https://github.com/" + o + "/" + n + rest + Repeat('/', k);
    assert url == ("https://github.com/" + t) + Repeat('/', k);
    assert StartsWith(url, "http") by {
      assert url[..4] == ("https://github.com/" + t)[..4] == "http";
    }
    StripUrl(t, k);
    AfterMarker(t);
    SplitOwnerName(o, n, rest);
  }

  /**
   * An empty name defeats the URL form: bare `o/` yields `o` and an empty name,
   * but `rstrip("/")` removes the slash of `https://github.com/o/`, so only `o`
   * is left and the URL is rejected with status 400.
   */
  lemma ParseUrlEmptyNameRejected(o: string)
    requires '/' !in o && o != ""
    requires !StartsWith(o + "/", "http")
    ensures ParseRepoUrl(o + "/") == Success(RepoRef(o, ""))
    ensures ParseRepoUrl("https://github.com/" + o + "/") == Failure(InvalidLocator)
  {
    assert o + "/" + "" + [] == o + "/";
    ParseBareSegments(o, "", []);
    var url := "https://github.com/" + o + "/";
    assert url == "https://github.com/" + o + Repeat('/', 1);
    assert StartsWith(url, "http") by {
      assert url[..4] == "http";
    }
    StripUrl(o, 1);
    SlashlessNoMarker(o);
    AfterMarker(o);
    SplitCharAbsent(o, '/');
    assert Segments(url) == [o];
    FewSegmentsRejected(url);
  }

  /** In `x` + "github.com/" + `n` with slash-free `x` and `n`, the marker first occurs after `x`. */
  lemma MarkerFirstAfter(x: string, n: string)
    requires '/' !in x && '/' !in n
    ensures forall i: nat :: i < |x| ==> !MatchAt(x + HostMarker + n, HostMarker, i)
  {
    var u := x + HostMarker + n;
    forall i: nat | i < |x| && MatchAt(u, HostMarker, i) ensures u[i + 10] != '/' {
      assert u[i + 10] == (x + "github.com")[i + 10];
    }
    forall i: nat | i < |x| && MatchAt(u, HostMarker, i) ensures u[i + 10] == '/' {
      MarkerMatch(u, i);
    }
  }

  /** After the scheme, a marker, `x` and a second marker before `n`, the last piece is `n`. */
  lemma LastPieceAfterSecondMarker(x: string, n: string)
    requires '/' !in x && '/' !in n
    ensures Last(Split("https://" + (HostMarker + (x + HostMarker + n)), HostMarker)) == n
  {
    var u := x + HostMarker + n;
    MarkerFirstAfter(x, n);
    SplitAtFirst(x, HostMarker, n);
    SlashlessNoMarker(n);
    SplitAbsent(n, HostMarker);
    var marked := HostMarker + u;
    assert marked[..|HostMarker|] == HostMarker && marked[|HostMarker|..] == u;
    assert Split(marked, HostMarker) == [""] + [x, n];
    SplitLastSkip("https://", marked, HostMarker);
  }

  /** With an owner ending in "github.com", the URL form leaves only the name as a segment. */
  lemma SegmentsOwnerEndingInMarker(x: string, n: string)
    requires '/' !in x && '/' !in n && n != ""
    ensures Segments("https://github.com/" + x + "github.com" + "/" + n) == [n]
  {
    var url := "https://github.com/" + x + "github.com" + "/" + n;
    assert url == "https://" + (HostMarker + (x + HostMarker + n));
    assert StartsWith(url, "http") by {
      assert url[..4] == "http";
    }
    assert url[|url| - 1] == n[|n| - 1];
    RStripPadded(url, '/', 0);
    assert url + Repeat('/', 0) == url;
    LastPieceAfterSecondMarker(x, n);
    SplitCharAbsent(n, '/');
  }

  /**
   * An owner ending in "github.com" defeats the URL form: `split(...)[-1]` keeps
   * only what follows its LAST host marker, so one segment is left and the
   * locator is rejected, although the bare `owner/name` form is accepted.
   */
  lemma ParseUrlOwnerEndingInMarker(x: string, n: string)
    requires '/' !in x && '/' !in n && n != ""
    ensures ParseRepoUrl("https://github.com/" + x + "github.com" + "/" + n) == Failure(InvalidLocator)
  {
    SegmentsOwnerEndingInMarker(x, n);
    FewSegmentsRejected("https://github.com/" + x + "github.com" + "/" + n);
  }

  /** In `a//b` with slash-free `a` and `b`, the only slashes are the two after `a`. */
  lemma TwoSlashes(a: string, b: string, q: nat)
    requires '/' !in a && '/' !in b
    requires q < |a + "//" + b| && (a + "//" + b)[q] == '/'
    ensures q == |a| || q == |a| + 1
  {
  }

  /** The host marker cannot occur in `a//b` unless `a` ends with "github.com". */
  lemma MarkerInSchemeOnly(a: string, b: string, p: nat)
    requires '/' !in a && '/' !in b
    requires MatchAt(a + "//" + b, HostMarker, p)
    ensures EndsWith(a, "github.com")
  {
    var url := a + "//" + b;
    MarkerMatch(url, p);
    assert url[p + 9] == url[p..p + 10][9] == 'm';
    TwoSlashes(a, b, p + 10);
    assert url[|a|] == '/';
    assert a[|a| - 10..] == url[p..p + 10];
  }

  /** Without a host marker, the URL form of `a//b` looks at all of `a//b`. */
  lemma SchemeOnlyUnmarked(a: string, b: string)
    requires '/' !in a && '/' !in b && b != ""
    requires StartsWith(a, "http") && !EndsWith(a, "github.com")
    ensures Segments(a + "//" + b) == Split(a + "//" + b, "/")
  {
    var url := a + "//" + b;
    assert StartsWith(url, "http") by {
      assert url[..4] == a[..4];
    }
    assert url[|url| - 1] == b[|b| - 1];
    RStripPadded(url, '/', 0);
    assert url + Repeat('/', 0) == url;
    if Occurs(url, HostMarker) {
      var p: nat :| MatchAt(url, HostMarker, p);
      MarkerInSchemeOnly(a, b, p);
    }
    SplitAbsent(url, HostMarker);
  }

  /** Splitting `a//b` on "/" gives `a`, an empty piece and `b`. */
  lemma SplitDoubleSlash(a: string, b: string)
    requires '/' !in a && '/' !in b
    ensures Split(a + "//" + b, "/") == [a, "", b]
  {
    assert a + "//" + b == a + ['/'] + ("/" + b);
    SplitCharFirst(a, '/', "/" + b);
    assert "/" + b == [] + ['/'] + b;
    SplitCharFirst([], '/', b);
    SplitCharAbsent(b, '/');
  }

  /**
   * A URL that names a host but no repository, such as `https://github.com`, is
   * not rejected: it yields the scheme as the owner and an empty name.
   */
  lemma ParseSchemeOnly(a: string, b: string)
    requires '/' !in a && '/' !in b && b != ""
    requires StartsWith(a, "http") && !EndsWith(a, "github.com")
    ensures ParseRepoUrl(a + "//" + b) == Success(RepoRef(a, ""))
  {
    SchemeOnlyUnmarked(a, b);
    SplitDoubleSlash(a, b);
  }
}
