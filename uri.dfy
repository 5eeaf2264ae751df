/**
 * The textual URI rewrite of ProjectUtil.kt: `resolveProjectFromUri` and
 * `getURIForFile` both replace every "file://" by "file:///" before anything
 * parses the string.
 */
module Uri {

  const Scheme: string := "file://"
  const TripleSlashScheme: string := "file:///"

  predicate StartsWith(s: string, prefix: string) {
    |prefix| <= |s| && s[..|prefix|] == prefix
  }

  /** Whether `pat` occurs somewhere in `s`. */
  predicate Contains(s: string, pat: string)
    decreases |s|
  {
    StartsWith(s, pat) || (s != [] && Contains(s[1..], pat))
  }

  /** An occurrence of `pat` in `s` that begins at index `i`. */
  predicate OccursAt(s: string, pat: string, i: int) {
    0 <= i && i + |pat| <= |s| && s[i..i + |pat|] == pat
  }

  /**
   * Kotlin's `String.replace(oldValue, newValue)`: scanning from the left, each
   * occurrence of `pat` is replaced and the scan resumes after it, so
   * occurrences never overlap.
   */
  function ReplaceAll(s: string, pat: string, rep: string): (r: string)
    requires pat != []
    ensures !Contains(s, pat) ==> r == s
    ensures |pat| <= |rep| ==> |s| <= |r|
    decreases |s|
  {
    if s == [] then []
    else if StartsWith(s, pat) then rep + ReplaceAll(s[|pat|..], pat, rep)
    else [s[0]] + ReplaceAll(s[1..], pat, rep)
  }

  /** `uri.replace("file://", "file:///")`, as in `resolveProjectFromUri` and `getURIForFile`. */
  function NormalizeFileUri(uri: string): (r: string)
    ensures !Contains(uri, Scheme) ==> r == uri
    ensures |uri| <= |r|
  {
    ReplaceAll(uri, Scheme, TripleSlashScheme)
  }

  /** The rewrite undone: every "file:///" back to "file://". */
  function DenormalizeFileUri(uri: string): string {
    ReplaceAll(uri, TripleSlashScheme, Scheme)
  }

  /** The rewrite copies the first character, whatever it is. */
  lemma NormalizeHead(s: string)
    requires s != []
    ensures NormalizeFileUri(s) != [] && NormalizeFileUri(s)[0] == s[0]
    ensures s[0] != 'f' ==> NormalizeFileUri(s) == [s[0]] + NormalizeFileUri(s[1..])
  {
    if StartsWith(s, Scheme) {
      assert s[0] == Scheme[0];
    }
  }

  /** A prefix of the output that holds no 'f' is copied unchanged from the input. */
  lemma {:induction false} PrefixWithoutF(s: string, w: string)
    requires forall k :: 0 <= k < |w| ==> w[k] != 'f'
    requires StartsWith(NormalizeFileUri(s), w)
    ensures StartsWith(s, w)
    decreases |w|
  {
    if w != [] {
      var n := NormalizeFileUri(s);
      assert s != [];
      NormalizeHead(s);
      assert s[0] == w[0];
      assert n == [s[0]] + NormalizeFileUri(s[1..]);
      assert NormalizeFileUri(s[1..])[..|w| - 1] == n[1..|w|] == w[1..];
      PrefixWithoutF(s[1..], w[1..]);
      assert s[..|w|] == [s[0]] + s[1..][..|w| - 1];
    }
  }

  /** The output starts with "file://" exactly when the input does. */
  lemma SchemePrefixPreserved(s: string)
    ensures StartsWith(NormalizeFileUri(s), Scheme) <==> StartsWith(s, Scheme)
  {
    var n := NormalizeFileUri(s);
    if StartsWith(s, Scheme) {
      assert n == TripleSlashScheme + NormalizeFileUri(s[|Scheme|..]);
      assert n[..|Scheme|] == TripleSlashScheme[..|Scheme|] == Scheme;
    } else if StartsWith(n, Scheme) {
      assert s != [];
      NormalizeHead(s);
      assert s[0] == 'f';
      assert n == [s[0]] + NormalizeFileUri(s[1..]);
      var rest := Scheme[1..];
      assert forall k :: 0 <= k < |rest| ==> rest[k] != 'f';
      assert NormalizeFileUri(s[1..])[..|rest|] == n[1..|Scheme|] == rest;
      PrefixWithoutF(s[1..], rest);
      assert false;
    }
  }

  /** Nothing but the inserted slashes changes: undoing the rewrite gives the input back. */
  lemma {:induction false} DenormalizeInvertsNormalize(s: string)
    ensures DenormalizeFileUri(NormalizeFileUri(s)) == s
    decreases |s|
  {
    var n := NormalizeFileUri(s);
    if s == [] {
    } else if StartsWith(s, Scheme) {
      var t := s[|Scheme|..];
      assert n == TripleSlashScheme + NormalizeFileUri(t);
      assert StartsWith(n, TripleSlashScheme);
      assert n[|TripleSlashScheme|..] == NormalizeFileUri(t);
      DenormalizeInvertsNormalize(t);
      assert DenormalizeFileUri(n) == Scheme + t;
      assert s == s[..|Scheme|] + t;
    } else {
      SchemePrefixPreserved(s);
      assert !StartsWith(n, TripleSlashScheme);
      NormalizeHead(s);
      assert n == [s[0]] + NormalizeFileUri(s[1..]);
      assert n[1..] == NormalizeFileUri(s[1..]);
      DenormalizeInvertsNormalize(s[1..]);
      assert DenormalizeFileUri(n) == [s[0]] + s[1..];
    }
  }

  /** Past its first character, a leading "file:///" holds no 'f'. */
  lemma TripleSlashTailHasNoF(n: string)
    requires StartsWith(n, TripleSlashScheme)
    ensures forall k :: 0 < k < |TripleSlashScheme| ==> n[k] != 'f'
  {
    forall k | 0 < k < |TripleSlashScheme| ensures n[k] != 'f' {
      assert n[k] == n[..|TripleSlashScheme|][k] == TripleSlashScheme[k];
    }
  }

  lemma OccurrenceHead(s: string, pat: string, i: int)
    requires pat != [] && OccursAt(s, pat, i)
    ensures s[i] == pat[0]
  {
    assert s[i] == s[i..i + |pat|][0];
  }

  /** Every "file://" in `n` is followed by a further '/'. */
  ghost predicate SlashAfterEveryScheme(n: string) {
    forall i :: OccursAt(n, Scheme, i) ==> i + |Scheme| < |n| && n[i + |Scheme|] == '/'
  }

  /** Putting "file:///" in front keeps every "file://" followed by a '/'. */
  lemma TripleSlashPrependKeeps(u: string)
    requires SlashAfterEveryScheme(u)
    ensures SlashAfterEveryScheme(TripleSlashScheme + u)
  {
    var n := TripleSlashScheme + u;
    TripleSlashTailHasNoF(n);
    forall i | OccursAt(n, Scheme, i)
      ensures i + |Scheme| < |n| && n[i + |Scheme|] == '/'
    {
      OccurrenceHead(n, Scheme, i);
      if i >= |TripleSlashScheme| {
        var j := i - |TripleSlashScheme|;
        assert n[i..i + |Scheme|] == u[j..j + |Scheme|];
        assert OccursAt(u, Scheme, j);
      }
    }
  }

  /** A character in front that does not start a "file://" keeps the property. */
  lemma CharPrependKeeps(c: char, u: string)
    requires SlashAfterEveryScheme(u)
    requires !StartsWith([c] + u, Scheme)
    ensures SlashAfterEveryScheme([c] + u)
  {
    var n := [c] + u;
    forall i | OccursAt(n, Scheme, i)
      ensures i + |Scheme| < |n| && n[i + |Scheme|] == '/'
    {
      if i > 0 {
        assert n[i..i + |Scheme|] == u[i - 1..i - 1 + |Scheme|];
        assert OccursAt(u, Scheme, i - 1);
      }
    }
  }

  /** After the rewrite, every "file://" in the string is followed by a further '/'. */
  lemma {:induction false} SchemeAlwaysTripleSlashed(s: string)
    ensures SlashAfterEveryScheme(NormalizeFileUri(s))
    decreases |s|
  {
    if s == [] {
    } else if StartsWith(s, Scheme) {
      var t := s[|Scheme|..];
      assert NormalizeFileUri(s) == TripleSlashScheme + NormalizeFileUri(t);
      SchemeAlwaysTripleSlashed(t);
      TripleSlashPrependKeeps(NormalizeFileUri(t));
    } else {
      var t := s[1..];
      NormalizeHead(s);
      SchemePrefixPreserved(s);
      assert NormalizeFileUri(s) == [s[0]] + NormalizeFileUri(t);
      SchemeAlwaysTripleSlashed(t);
      CharPrependKeeps(s[0], NormalizeFileUri(t));
    }
  }

  /**
   * The rewrite is not idempotent: a URI that already has three slashes gets
   * a fourth.
   */
  lemma AlreadyTripleSlashedGetsFour(s: string)
    requires StartsWith(s, TripleSlashScheme)
    ensures StartsWith(NormalizeFileUri(s), "file:////")
    ensures NormalizeFileUri(s) != s
  {
    var t := s[|Scheme|..];
    assert StartsWith(s, Scheme) by {
      assert s[..|Scheme|] == s[..|TripleSlashScheme|][..|Scheme|];
    }
    assert NormalizeFileUri(s) == TripleSlashScheme + NormalizeFileUri(t);
    assert t != [] && t[0] == s[|Scheme|] == '/';
    NormalizeHead(t);
    assert NormalizeFileUri(s)[..9] == TripleSlashScheme + [t[0]];
  }
}
