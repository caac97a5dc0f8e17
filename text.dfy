/**
 * The handful of Python string operations the ingestion core relies on, with
 * Python's semantics: `startswith`, `endswith`, `split(sep)` for a non-empty
 * separator, `rstrip(c)` for a single character and ASCII `lower`.
 */
module Text {

  predicate StartsWith(s: string, prefix: string) {
    |prefix| <= |s| && s[..|prefix|] == prefix
  }

  predicate EndsWith(s: string, suffix: string) {
    |suffix| <= |s| && s[|s| - |suffix|..] == suffix
  }

  /** `sep` occurs in `s` starting at position `p`. */
  predicate MatchAt(s: string, sep: string, p: nat) {
    p + |sep| <= |s| && s[p..p + |sep|] == sep
  }

  ghost predicate Occurs(s: string, sep: string) {
    exists p: nat :: MatchAt(s, sep, p)
  }

  function Last<T>(xs: seq<T>): T
    requires |xs| >= 1
  {
    xs[|xs| - 1]
  }

  /**
   * Python's `s.split(sep)`: cuts `s` at the leftmost occurrence of `sep`, then
   * again in what follows, never letting two occurrences overlap.
   */
  function Split(s: string, sep: string): (parts: seq<string>)
    requires sep != ""
    ensures |parts| >= 1
    decreases |s|
  {
    if |s| < |sep| then [s]
    else if s[..|sep|] == sep then [""] + Split(s[|sep|..], sep)
    else
      var rest := Split(s[1..], sep);
      [[s[0]] + rest[0]] + rest[1..]
  }

  /** Python's `sep.join(parts)`. */
  function Join(parts: seq<string>, sep: string): string
    requires |parts| >= 1
  {
    if |parts| == 1 then parts[0] else parts[0] + sep + Join(parts[1..], sep)
  }

  /** Splitting loses nothing: joining the pieces back gives the original string. */
  lemma {:induction false} JoinSplit(s: string, sep: string)
    requires sep != ""
    ensures Join(Split(s, sep), sep) == s
    decreases |s|
  {
    if |s| < |sep| {
      assert Split(s, sep) == [s];
    } else if s[..|sep|] == sep {
      var tail := Split(s[|sep|..], sep);
      assert Split(s, sep) == [""] + tail;
      assert ([""] + tail)[1..] == tail;
      JoinSplit(s[|sep|..], sep);
      assert Join([""] + tail, sep) == "" + sep + Join(tail, sep);
      assert s == sep + s[|sep|..];
    } else {
      var rest := Split(s[1..], sep);
      assert Split(s, sep) == [[s[0]] + rest[0]] + rest[1..];
      JoinSplit(s[1..], sep);
      if |rest| == 1 {
        assert [s[0]] + s[1..] == s;
      } else {
        var parts := [[s[0]] + rest[0]] + rest[1..];
        assert parts[1..] == rest[1..];
        assert Join(rest, sep) == rest[0] + sep + Join(rest[1..], sep);
        assert Join(parts, sep) == ([s[0]] + rest[0]) + sep + Join(rest[1..], sep);
        assert ([s[0]] + rest[0]) + sep + Join(rest[1..], sep) == [s[0]] + Join(rest, sep);
        assert [s[0]] + s[1..] == s;
      }
    }
  }

  /** Without an occurrence of the separator, splitting yields the whole string. */
  lemma {:induction false} SplitAbsent(s: string, sep: string)
    requires sep != ""
    requires !Occurs(s, sep)
    ensures Split(s, sep) == [s]
    decreases |s|
  {
    if |s| >= |sep| {
      assert !MatchAt(s, sep, 0);
      assert !Occurs(s[1..], sep) by {
        forall p: nat | MatchAt(s[1..], sep, p) ensures MatchAt(s, sep, p + 1) {
          assert s[1..][p..p + |sep|] == s[p + 1..p + 1 + |sep|];
        }
      }
      SplitAbsent(s[1..], sep);
      assert [s[0]] + s[1..] == s;
    }
  }

  /** Splitting on one character: the pieces never contain that character. */
  lemma {:induction false} SplitCharPieces(s: string, c: char)
    ensures forall k :: 0 <= k < |Split(s, [c])| ==> c !in Split(s, [c])[k]
    decreases |s|
  {
    if |s| >= 1 {
      SplitCharPieces(s[1..], c);
    }
  }

  /** A one-character separator occurs exactly where that character does. */
  lemma OccursChar(s: string, c: char)
    ensures Occurs(s, [c]) ==> c in s
  {
    if Occurs(s, [c]) {
      var p: nat :| MatchAt(s, [c], p);
      assert s[p..p + 1][0] == s[p];
    }
  }

  /** Splitting on a character that does not occur yields the whole string. */
  lemma SplitCharAbsent(s: string, c: char)
    requires c !in s
    ensures Split(s, [c]) == [s]
  {
    OccursChar(s, c);
    SplitAbsent(s, [c]);
  }

  /** Splitting on a character cuts at its first occurrence. */
  lemma {:induction false} SplitCharFirst(a: string, c: char, b: string)
    requires c !in a
    ensures Split(a + [c] + b, [c]) == [a] + Split(b, [c])
    decreases |a|
  {
    var s := a + [c] + b;
    if a == [] {
      assert s[..1] == [c] && s[1..] == b;
    } else {
      assert s[0] == a[0] && s[..1] != [c];
      assert s[1..] == a[1..] + [c] + b;
      SplitCharFirst(a[1..], c, b);
      assert [a[0]] + a[1..] == a;
    }
  }

  /**
   * A prefix none of whose characters can start the separator does not change
   * the last piece, provided the rest already splits into at least two pieces.
   */
  lemma {:induction false} SplitLastSkip(p: string, s: string, sep: string)
    requires sep != ""
    requires forall i :: 0 <= i < |p| ==> p[i] != sep[0]
    requires |Split(s, sep)| >= 2
    ensures |Split(p + s, sep)| == |Split(s, sep)|
    ensures Last(Split(p + s, sep)) == Last(Split(s, sep))
    decreases |p|
  {
    var t := p + s;
    if p == [] {
      assert t == s;
    } else {
      assert t[1..] == p[1..] + s;
      SplitLastSkip(p[1..], s, sep);
      assert |s| >= |sep|;
      assert t[..|sep|][0] == p[0] != sep[0];
      var rest := Split(t[1..], sep);
      assert Split(t, sep) == [[t[0]] + rest[0]] + rest[1..];
    }
  }

  /** With no earlier occurrence, splitting cuts at the first occurrence of the separator. */
  lemma {:induction false} SplitAtFirst(p: string, sep: string, s: string)
    requires sep != ""
    requires forall i: nat :: i < |p| ==> !MatchAt(p + sep + s, sep, i)
    ensures Split(p + sep + s, sep) == [p] + Split(s, sep)
    decreases |p|
  {
    var t := p + sep + s;
    if p == [] {
      assert t[..|sep|] == sep && t[|sep|..] == s;
    } else {
      assert !MatchAt(t, sep, 0);
      assert t[1..] == p[1..] + sep + s;
      forall i: nat | i < |p[1..]| ensures !MatchAt(p[1..] + sep + s, sep, i) {
        assert !MatchAt(t, sep, i + 1);
        if i + |sep| <= |t[1..]| {
          assert t[1..][i..i + |sep|] == t[i + 1..i + 1 + |sep|];
        }
      }
      SplitAtFirst(p[1..], sep, s);
      assert [p[0]] + p[1..] == p;
    }
  }

  /** Python's `s.rstrip(c)`: removes every trailing `c`. */
  function RStrip(s: string, c: char): (r: string)
    ensures |r| <= |s| && r == s[..|r|]
    ensures r == [] || r[|r| - 1] != c
    ensures forall i :: |r| <= i < |s| ==> s[i] == c
  {
    if |s| > 0 && s[|s| - 1] == c then RStrip(s[..|s| - 1], c) else s
  }

  function Repeat(c: char, k: nat): (r: string)
    ensures |r| == k && forall i :: 0 <= i < k ==> r[i] == c
  {
    seq(k, _ => c)
  }

  /** Stripping trailing copies of `c` undoes padding a string that does not end in `c`. */
  lemma {:induction false} RStripPadded(t: string, c: char, k: nat)
    requires t == [] || t[|t| - 1] != c
    ensures RStrip(t + Repeat(c, k), c) == t
  {
    var s := t + Repeat(c, k);
    if k == 0 {
      assert s == t;
    } else {
      assert s[|s| - 1] == c;
      assert s[..|s| - 1] == t + Repeat(c, k - 1);
      RStripPadded(t, c, k - 1);
    }
  }

  function LowerChar(c: char): char {
    if 'A' <= c <= 'Z' then (c as int + 32) as char else c
  }

  /** ASCII lower-casing of every character. */
  function Lower(s: string): (r: string)
    ensures |r| == |s|
    ensures forall i :: 0 <= i < |r| ==> !('A' <= r[i] <= 'Z')
    ensures forall i :: 0 <= i < |s| && !('A' <= s[i] <= 'Z') ==> r[i] == s[i]
    ensures forall i :: 0 <= i < |s| && 'A' <= s[i] <= 'Z' ==> r[i] as int == s[i] as int + 32
  {
    seq(|s|, i requires 0 <= i < |s| => LowerChar(s[i]))
  }

  /** Lower-casing twice is lower-casing once. */
  lemma LowerIdempotent(s: string)
    ensures Lower(Lower(s)) == Lower(s)
  {
    forall i | 0 <= i < |s| ensures Lower(Lower(s))[i] == Lower(s)[i] {
      assert LowerChar(LowerChar(s[i])) == LowerChar(s[i]);
    }
  }
}
