/**
 * String operations the pipeline relies on, written out explicitly:
 * substring search, Python's `str.split(sep)` and its inverse `sep.join`,
 * Python's `<=` on strings, and `str()` of an integer.
 */
module Text {
  import opened Wrappers

  /** `p` occurs in `s` starting at index `j`. */
  predicate OccursAt(s: string, p: string, j: int)
  {
    0 <= j && j + |p| <= |s| && s[j..j + |p|] == p
  }

  /** Python's `p in s`. */
  predicate Contains(s: string, p: string)
  {
    exists j :: 0 <= j <= |s| - |p| && OccursAt(s, p, j)
  }

  /** The first index at or after `from` where `p` occurs in `s` (Python's `s.find(p, from)`). */
  function Find(s: string, p: string, from: nat): (r: Option<nat>)
    ensures r.Some? ==> from <= r.value && OccursAt(s, p, r.value)
    ensures forall j :: from <= j && (r.None? || j < r.value) ==> !OccursAt(s, p, j)
    decreases |s| - from
  {
    if from + |p| > |s| then None
    else if s[from..from + |p|] == p then Some(from)
    else Find(s, p, from + 1)
  }

  /** Python's `sep.join(pieces)`. */
  function Join(pieces: seq<string>, sep: string): string
    requires |pieces| >= 1
  {
    if |pieces| == 1 then pieces[0] else pieces[0] + sep + Join(pieces[1..], sep)
  }

  /**
   * The pieces of `s[start..]` cut at every occurrence of `sep`, found from
   * left to right without overlap: Python's `s[start:].split(sep)`.
   */
  function SplitFrom(s: string, sep: string, start: nat): (pieces: seq<string>)
    requires |sep| > 0 && start <= |s|
    ensures |pieces| >= 1
    ensures forall i :: 0 <= i < |pieces| ==> !Contains(pieces[i], sep)
    ensures Join(pieces, sep) == s[start..]
    decreases |s| - start
  {
    match Find(s, sep, start)
    case None =>
      NoOccurrenceInSlice(s, sep, start, |s|);
      assert s[start..|s|] == s[start..];
      [s[start..]]
    case Some(k) =>
      NoOccurrenceInSlice(s, sep, start, k);
      var rest := SplitFrom(s, sep, k + |sep|);
      var pieces := [s[start..k]] + rest;
      assert pieces[1..] == rest;
      assert s[start..] == s[start..k] + sep + s[k + |sep|..];
      pieces
  }

  /** Python's `s.split(sep)`, which refuses an empty separator. */
  function Split(s: string, sep: string): (pieces: seq<string>)
    requires |sep| > 0
    ensures |pieces| >= 1
    ensures forall i :: 0 <= i < |pieces| ==> !Contains(pieces[i], sep)
    ensures Join(pieces, sep) == s
    ensures pieces == SplitFrom(s, sep, 0)
  {
    assert s[0..] == s;
    SplitFrom(s, sep, 0)
  }

  /** A slice of `s` that no occurrence of `p` starts inside does not contain `p`. */
  lemma NoOccurrenceInSlice(s: string, p: string, a: nat, b: nat)
    requires a <= b <= |s| && |p| > 0
    requires forall j :: a <= j < b ==> !OccursAt(s, p, j)
    ensures !Contains(s[a..b], p)
  {
    forall j | 0 <= j <= (b - a) - |p| && OccursAt(s[a..b], p, j)
      ensures false
    {
      assert j + |p| <= b - a;
      forall i | 0 <= i < |p| ensures s[a + j + i] == p[i] {
        assert s[a..b][j..j + |p|][i] == p[i];
      }
      assert s[a + j..a + j + |p|] == p;
      assert OccursAt(s, p, a + j);
    }
  }

  /** A prefix of a string that does not contain `p` does not contain it either. */
  lemma PrefixNotContains(a: string, b: string, p: string)
    requires a <= b && !Contains(b, p)
    ensures !Contains(a, p)
  {
    forall j | 0 <= j <= |a| - |p| && OccursAt(a, p, j)
      ensures false
    {
      assert b[j..j + |p|] == a[j..j + |p|];
      assert OccursAt(b, p, j);
    }
  }

  /** Occurrences in a suffix `s[off..]` are the occurrences in `s` shifted by `off`. */
  lemma OccursInSuffix(s: string, off: nat, p: string, j: nat)
    requires off <= |s|
    ensures OccursAt(s[off..], p, j) <==> OccursAt(s, p, off + j)
  {
    if j + |p| <= |s| - off {
      assert s[off..][j..j + |p|] == s[off + j..off + j + |p|];
    }
  }

  /** `Find` returns any occurrence that has no other occurrence between `from` and it. */
  lemma FindIsFirst(s: string, p: string, from: nat, k: nat)
    requires from <= k && OccursAt(s, p, k)
    requires forall j :: from <= j < k ==> !OccursAt(s, p, j)
    ensures Find(s, p, from) == Some(k)
  {
  }

  /** Where the piece starting at `from` ends: the next occurrence of `p`, or the end of `s`. */
  function NextAt(s: string, p: string, from: nat): (r: nat)
    requires from <= |s|
    ensures from <= r <= |s|
    ensures forall j :: from <= j < r ==> !OccursAt(s, p, j)
    ensures r < |s| ==> OccursAt(s, p, r)
    ensures Find(s, p, from).Some? ==> r == Find(s, p, from).value
  {
    match Find(s, p, from)
    case None => |s|
    case Some(k) => k
  }

  /** The first piece of a split runs up to the next separator. */
  lemma SplitFromFirst(s: string, sep: string, start: nat)
    requires |sep| > 0 && start <= |s|
    ensures SplitFrom(s, sep, start)[0] == s[start..NextAt(s, sep, start)]
  {
    if Find(s, sep, start).None? {
      assert s[start..|s|] == s[start..];
    }
  }

  /** A split has a second piece exactly when a separator occurs. */
  lemma SplitFromMore(s: string, sep: string, start: nat)
    requires |sep| > 0 && start <= |s|
    ensures |SplitFrom(s, sep, start)| >= 2 <==> Find(s, sep, start).Some?
  {
  }

  /** After a separator at `k`, the next piece is the first piece of the text after it. */
  lemma SplitFromNext(s: string, sep: string, start: nat, k: nat)
    requires |sep| > 0 && start <= |s| && Find(s, sep, start) == Some(k)
    ensures k + |sep| <= |s|
    ensures |SplitFrom(s, sep, start)| >= 2
    ensures SplitFrom(s, sep, start)[1] == SplitFrom(s, sep, k + |sep|)[0]
  {
    var rest := SplitFrom(s, sep, k + |sep|);
    assert SplitFrom(s, sep, start) == [s[start..k]] + rest;
  }

  /** The second piece of a split runs from the end of the first separator to the next one. */
  lemma SplitSecondPiece(s: string, sep: string, k: nat)
    requires |sep| > 0 && Find(s, sep, 0) == Some(k)
    ensures k + |sep| <= |s|
    ensures |Split(s, sep)| >= 2
    ensures Split(s, sep)[1] == s[k + |sep|..NextAt(s, sep, k + |sep|)]
  {
    SplitFromNext(s, sep, 0, k);
    SplitFromFirst(s, sep, k + |sep|);
  }

  /** The first piece of a split is a prefix cut at the first separator, which follows it when there is one. */
  lemma SplitFirstPiece(s: string, sep: string)
    requires |sep| > 0
    ensures Split(s, sep)[0] <= s
    ensures Split(s, sep)[0] == s || Split(s, sep)[0] + sep <= s
  {
    SplitFromFirst(s, sep, 0);
    var c := NextAt(s, sep, 0);
    assert Split(s, sep)[0] == s[..c];
    if c < |s| {
      assert s[..c] + sep == s[..c + |sep|];
    }
  }

  /** A string holds `p` exactly when `Find` from its start succeeds. */
  lemma ContainsIffFound(s: string, p: string)
    ensures Contains(s, p) <==> Find(s, p, 0).Some?
  {
    if Find(s, p, 0).Some? {
      assert OccursAt(s, p, Find(s, p, 0).value);
    }
  }

  /**
   * If no proper suffix of `pat` starts with `pat`'s first character, the
   * first occurrence of `pat` in `p + pat + rest`, for `p` free of `pat`, is
   * the one right after `p`.
   */
  lemma FindAfterFreePrefix(p: string, pat: string, rest: string)
    requires |pat| > 0 && !Contains(p, pat)
    requires forall k :: 0 < k < |pat| ==> pat[k] != pat[0]
    ensures Find(p + pat + rest, pat, 0) == Some(|p|)
  {
    var s := p + pat + rest;
    assert s[|p|..|p| + |pat|] == pat;
    forall j | 0 <= j < |p| ensures !OccursAt(s, pat, j) {
      if j + |pat| <= |p| {
        assert s[j..j + |pat|] == p[j..j + |pat|];
        assert !OccursAt(p, pat, j);
      } else {
        assert s[j..j + |pat|][|p| - j] == s[|p|] == pat[0] != pat[|p| - j];
      }
    }
    FindIsFirst(s, pat, 0, |p|);
  }

  /** Python's `a <= b` on strings: lexicographic order of code points. */
  predicate StrLe(a: string, b: string)
  {
    if |a| == 0 then true
    else if |b| == 0 then false
    else if a[0] != b[0] then a[0] < b[0]
    else StrLe(a[1..], b[1..])
  }

  lemma {:induction false} StrLeTotal(a: string, b: string)
    ensures StrLe(a, b) || StrLe(b, a)
  {
    if |a| > 0 && |b| > 0 && a[0] == b[0] {
      StrLeTotal(a[1..], b[1..]);
    }
  }

  lemma {:induction false} StrLeTransitive(a: string, b: string, c: string)
    requires StrLe(a, b) && StrLe(b, c)
    ensures StrLe(a, c)
  {
    if |a| > 0 && |b| > 0 && |c| > 0 && a[0] == b[0] == c[0] {
      StrLeTransitive(a[1..], b[1..], c[1..]);
    }
  }

  /** Python's `str(n)` for a non-negative integer: decimal digits, no leading zero. */
  function NatToString(n: nat): (s: string)
    ensures |s| >= 1 && forall i :: 0 <= i < |s| ==> '0' <= s[i] <= '9'
    ensures |s| > 1 ==> s[0] != '0'
  {
    if n < 10 then [('0' as int + n) as char]
    else NatToString(n / 10) + [('0' as int + n % 10) as char]
  }

  /** Python's `str(n)` for any integer. */
  function IntToString(n: int): string
  {
    if n < 0 then "-" + NatToString(-n) else NatToString(n)
  }

  /** The value of a string of decimal digits (Python's `int(s)` on such a string). */
  function DecimalValue(s: string): int
  {
    if |s| == 0 then 0 else DecimalValue(s[..|s| - 1]) * 10 + (s[|s| - 1] as int - '0' as int)
  }

  /** Python's `int(s)` on an optionally signed string of decimal digits. */
  function ParseInt(s: string): int
  {
    if |s| > 0 && s[0] == '-' then -DecimalValue(s[1..]) else DecimalValue(s)
  }

  lemma {:induction false} NatToStringRoundTrip(n: nat)
    ensures DecimalValue(NatToString(n)) == n
  {
    if n >= 10 {
      var s := NatToString(n);
      assert s[..|s| - 1] == NatToString(n / 10);
      NatToStringRoundTrip(n / 10);
    }
  }

  /** The score rendering loses nothing: `int(str(n)) == n`. */
  lemma IntToStringRoundTrip(n: int)
    ensures ParseInt(IntToString(n)) == n
  {
    if n < 0 {
      NatToStringRoundTrip(-n);
      assert ("-" + NatToString(-n))[1..] == NatToString(-n);
    } else {
      NatToStringRoundTrip(n);
    }
  }
}
