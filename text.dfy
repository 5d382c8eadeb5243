/** Models of the Python string primitives the context assembler relies on:
    `os.path.basename` (POSIX flavour), `str.lower` restricted to ASCII,
    `str.replace(pat, "")` and `str.join`. */
module Text {

  // ---------------------------------------------------------------------
  // Case folding
  // ---------------------------------------------------------------------

  /** ASCII lower-casing of one character; every other character is unchanged. */
  function LowerChar(c: char): char
  {
    if 'A' <= c <= 'Z' then (c as int + 32) as char else c
  }

  /** `s.lower()`, character by character. */
  function Lower(s: string): (r: string)
    ensures |r| == |s|
  {
    seq(|s|, i requires 0 <= i < |s| => LowerChar(s[i]))
  }

  /** Folding twice is folding once, and no folded character is an ASCII capital. */
  lemma LowerIdempotent(s: string)
    ensures Lower(Lower(s)) == Lower(s)
    ensures forall i :: 0 <= i < |s| ==> !('A' <= Lower(s)[i] <= 'Z')
  {
  }

  /** A string without ASCII capitals is its own lower-case form. */
  lemma LowerNoCapitals(s: string)
    requires forall i :: 0 <= i < |s| ==> !('A' <= s[i] <= 'Z')
    ensures Lower(s) == s
  {
  }

  /** Folding never creates nor removes a path separator. */
  lemma LowerKeepsSlash(c: char)
    ensures LowerChar(c) == '/' <==> c == '/'
  {
  }

  // ---------------------------------------------------------------------
  // Basename
  // ---------------------------------------------------------------------

  /** `s.rfind(c)`: the last index holding `c`, or -1 when there is none. */
  function RFind(s: string, c: char): (r: int)
    ensures -1 <= r < |s|
    ensures 0 <= r ==> s[r] == c
    ensures forall j :: r < j < |s| ==> s[j] != c
  {
    if s == [] then -1
    else if s[|s| - 1] == c then |s| - 1
    else RFind(s[..|s| - 1], c)
  }

  /** `os.path.basename(path)` on POSIX: everything after the last `/`. */
  function Basename(path: string): (r: string)
    ensures |r| <= |path| && r == path[|path| - |r|..]
    ensures forall k :: 0 <= k < |r| ==> r[k] != '/'
    ensures |r| < |path| ==> path[|path| - |r| - 1] == '/'
  {
    path[RFind(path, '/') + 1..]
  }

  /** A separator-free suffix that is either all of `path` or preceded by `/`
      is the basename: the three facts above pin the basename down. */
  lemma BasenameUnique(path: string, r: string)
    requires |r| <= |path| && r == path[|path| - |r|..]
    requires forall k :: 0 <= k < |r| ==> r[k] != '/'
    requires |r| < |path| ==> path[|path| - |r| - 1] == '/'
    ensures r == Basename(path)
  {
    var b := Basename(path);
    assert forall m :: |path| - |b| <= m < |path| ==> path[m] != '/' by {
      forall m | |path| - |b| <= m < |path| ensures path[m] != '/' {
        assert path[m] == b[m - (|path| - |b|)];
      }
    }
    assert forall m :: |path| - |r| <= m < |path| ==> path[m] != '/' by {
      forall m | |path| - |r| <= m < |path| ensures path[m] != '/' {
        assert path[m] == r[m - (|path| - |r|)];
      }
    }
    assert |r| == |b|;
  }

  /** A path without a separator is its own basename. */
  lemma BasenameNoSeparator(path: string)
    requires '/' !in path
    ensures Basename(path) == path
  {
    assert RFind(path, '/') == -1;
  }

  /** A directory prefix never affects the basename. */
  lemma BasenameAfterDirectory(dir: string, p: string)
    ensures Basename(dir + "/" + p) == Basename(p)
  {
    var path := dir + "/" + p;
    var b := Basename(p);
    assert path[|path| - |b|..] == p[|p| - |b|..];
    if |b| == |p| {
      assert path[|path| - |b| - 1] == '/';
    } else {
      assert path[|path| - |b| - 1] == p[|p| - |b| - 1];
    }
    BasenameUnique(path, b);
  }

  /** Taking the basename commutes with case folding. */
  lemma BasenameLower(path: string)
    ensures Basename(Lower(path)) == Lower(Basename(path))
  {
    var b := Basename(path);
    var lp := Lower(path);
    var lb := Lower(b);
    assert lb == lp[|lp| - |lb|..];
    forall k | 0 <= k < |lb| ensures lb[k] != '/' {
      LowerKeepsSlash(b[k]);
    }
    if |lb| < |lp| {
      LowerKeepsSlash(path[|path| - |b| - 1]);
    }
    BasenameUnique(lp, lb);
  }

  // ---------------------------------------------------------------------
  // Removing every occurrence of a pattern
  // ---------------------------------------------------------------------

  /** `pat` occurs in `s` starting at index `i`. */
  predicate StartsAt(s: string, pat: string, i: int)
  {
    0 <= i && i + |pat| <= |s| && s[i..i + |pat|] == pat
  }

  /** The scan behind `s.replace(pat, "")`, from index `i` on: left to right,
      an occurrence found is skipped whole and the scan resumes after it. */
  function RemoveAllFrom(s: string, pat: string, i: nat): (r: string)
    requires pat != [] && i <= |s|
    ensures |r| <= |s| - i
    decreases |s| - i
  {
    if i == |s| then []
    else if StartsAt(s, pat, i) then RemoveAllFrom(s, pat, i + |pat|)
    else [s[i]] + RemoveAllFrom(s, pat, i + 1)
  }

  /** `s.replace(pat, "")`. */
  function RemoveAll(s: string, pat: string): (r: string)
    requires pat != []
    ensures |r| <= |s|
  {
    RemoveAllFrom(s, pat, 0)
  }

  /** No proper suffix of `pat` is a prefix of it, guaranteed here by its first
      character not appearing again; `.pdf` has this property. */
  predicate NoSelfOverlap(pat: string)
  {
    pat != [] && forall k :: 0 < k < |pat| ==> pat[k] != pat[0]
  }

  /** Index `i` of `s` lies inside some occurrence of `pat` in `s`. */
  ghost predicate Covered(s: string, pat: string, i: int)
  {
    exists j :: 0 <= j <= i < j + |pat| && StartsAt(s, pat, j)
  }

  /** Reference meaning of removal: the characters of `s` from index `i` on that
      lie inside no occurrence of `pat`, in their original order. */
  ghost function KeepUncovered(s: string, pat: string, i: nat): string
    requires i <= |s|
    decreases |s| - i
  {
    if i == |s| then []
    else (if Covered(s, pat, i) then [] else [s[i]]) + KeepUncovered(s, pat, i + 1)
  }

  /** The characters of one occurrence contribute nothing to `KeepUncovered`. */
  lemma {:induction false} SkipOccurrence(s: string, pat: string, i: nat, j: nat)
    requires StartsAt(s, pat, i) && i <= j <= i + |pat|
    ensures KeepUncovered(s, pat, j) == KeepUncovered(s, pat, i + |pat|)
    decreases i + |pat| - j
  {
    if j < i + |pat| {
      assert Covered(s, pat, j);
      SkipOccurrence(s, pat, i, j + 1);
    }
  }

  lemma {:induction false} RemoveAllFromKeepsUncovered(s: string, pat: string, i: nat)
    requires NoSelfOverlap(pat) && i <= |s|
    requires forall j :: 0 <= j < i < j + |pat| ==> !StartsAt(s, pat, j)
    ensures RemoveAllFrom(s, pat, i) == KeepUncovered(s, pat, i)
    decreases |s| - i
  {
    if i == |s| {
    } else if StartsAt(s, pat, i) {
      forall j | i < j < i + |pat|
        ensures !StartsAt(s, pat, j)
      {
        assert s[j] == s[i..i + |pat|][j - i] == pat[j - i];
        assert pat[j - i] != pat[0];
      }
      RemoveAllFromKeepsUncovered(s, pat, i + |pat|);
      SkipOccurrence(s, pat, i, i);
    } else {
      assert !Covered(s, pat, i);
      RemoveAllFromKeepsUncovered(s, pat, i + 1);
    }
  }

  /** For a pattern that cannot overlap itself, `s.replace(pat, "")` deletes
      exactly the characters lying inside occurrences of `pat` in `s` and
      keeps every other character, in order. */
  lemma RemoveAllDeletesOccurrences(s: string, pat: string)
    requires NoSelfOverlap(pat)
    ensures RemoveAll(s, pat) == KeepUncovered(s, pat, 0)
  {
    RemoveAllFromKeepsUncovered(s, pat, 0);
  }

  lemma {:induction false} KeepUncoveredBound(s: string, pat: string, i: nat)
    requires i <= |s|
    ensures |KeepUncovered(s, pat, i)| <= |s| - i
    decreases |s| - i
  {
    if i < |s| {
      KeepUncoveredBound(s, pat, i + 1);
    }
  }

  /** Nothing is dropped exactly when no index is covered. */
  lemma {:induction false} KeepUncoveredAll(s: string, pat: string, i: nat)
    requires i <= |s|
    ensures KeepUncovered(s, pat, i) == s[i..] <==> forall k :: i <= k < |s| ==> !Covered(s, pat, k)
    decreases |s| - i
  {
    if i < |s| {
      KeepUncoveredAll(s, pat, i + 1);
      assert s[i..] == [s[i]] + s[i + 1..];
      if Covered(s, pat, i) {
        KeepUncoveredBound(s, pat, i + 1);
        assert |KeepUncovered(s, pat, i)| < |s[i..]|;
      } else {
        assert KeepUncovered(s, pat, i) == [s[i]] + KeepUncovered(s, pat, i + 1);
      }
    }
  }

  /** Everything is dropped exactly when every index is covered. */
  lemma {:induction false} KeepUncoveredNone(s: string, pat: string, i: nat)
    requires i <= |s|
    ensures KeepUncovered(s, pat, i) == [] <==> forall k :: i <= k < |s| ==> Covered(s, pat, k)
    decreases |s| - i
  {
    if i < |s| {
      KeepUncoveredNone(s, pat, i + 1);
    }
  }

  /** Removal leaves `s` unchanged if and only if `pat` does not occur in it. */
  lemma RemoveAllIdentity(s: string, pat: string)
    requires NoSelfOverlap(pat)
    ensures RemoveAll(s, pat) == s <==> forall j :: !StartsAt(s, pat, j)
  {
    RemoveAllDeletesOccurrences(s, pat);
    KeepUncoveredAll(s, pat, 0);
    assert s[0..] == s;
    if forall k :: 0 <= k < |s| ==> !Covered(s, pat, k) {
      forall j ensures !StartsAt(s, pat, j) {
        if StartsAt(s, pat, j) {
          assert Covered(s, pat, j);
        }
      }
    }
  }

  // ---------------------------------------------------------------------
  // Joining
  // ---------------------------------------------------------------------

  /** `sep.join(parts)`: the parts in order, `sep` between neighbours only. */
  function Join(parts: seq<string>, sep: string): string
  {
    if parts == [] then ""
    else if |parts| == 1 then parts[0]
    else parts[0] + sep + Join(parts[1..], sep)
  }

  /** Total length of the parts. */
  function SumLengths(parts: seq<string>): nat
  {
    if parts == [] then 0 else |parts[0]| + SumLengths(parts[1..])
  }

  /** Where part `k` begins in `Join(parts, sep)`. */
  function Offset(parts: seq<string>, sep: string, k: nat): nat
    requires k <= |parts|
  {
    SumLengths(parts[..k]) + k * |sep|
  }

  /** `[f(x) for x in s]`. */
  function Map<A, B>(f: A -> B, s: seq<A>): (r: seq<B>)
    ensures |r| == |s|
  {
    seq(|s|, i requires 0 <= i < |s| => f(s[i]))
  }

  /** Mapping distributes over concatenation. */
  lemma MapConcat<A, B>(f: A -> B, a: seq<A>, b: seq<A>)
    ensures Map(f, a + b) == Map(f, a) + Map(f, b)
  {
    forall i | 0 <= i < |a| + |b|
      ensures Map(f, a + b)[i] == (Map(f, a) + Map(f, b))[i]
    {
      if i < |a| {
        assert (a + b)[i] == a[i];
      } else {
        assert (a + b)[i] == b[i - |a|];
      }
    }
  }

  /** Joining two non-empty lists is joining each and putting `sep` between. */
  lemma {:induction false} JoinConcat(a: seq<string>, b: seq<string>, sep: string)
    requires a != [] && b != []
    ensures Join(a + b, sep) == Join(a, sep) + sep + Join(b, sep)
  {
    if |a| == 1 {
      assert (a + b)[1..] == b;
    } else {
      assert (a + b)[1..] == a[1..] + b;
      JoinConcat(a[1..], b, sep);
    }
  }

  /** The output is exactly the parts plus one separator per gap. */
  lemma {:induction false} JoinLength(parts: seq<string>, sep: string)
    requires parts != []
    ensures |Join(parts, sep)| == SumLengths(parts) + (|parts| - 1) * |sep|
  {
    if |parts| > 1 {
      JoinLength(parts[1..], sep);
    } else {
      assert parts[1..] == [];
    }
  }

  lemma OffsetTail(parts: seq<string>, sep: string, k: nat)
    requires 0 < k <= |parts|
    ensures Offset(parts, sep, k) == |parts[0]| + |sep| + Offset(parts[1..], sep, k - 1)
  {
    assert parts[..k][1..] == parts[1..][..k - 1];
  }

  /** `piece` is found in `out` starting at offset `o`. */
  predicate Occupies(out: string, o: nat, piece: string)
  {
    o + |piece| <= |out| && out[o..o + |piece|] == piece
  }

  lemma OccupiesAfterPrefix(x: string, y: string, o: nat, piece: string)
    requires Occupies(y, o, piece)
    ensures Occupies(x + y, |x| + o, piece)
  {
    assert (x + y)[|x| + o..|x| + o + |piece|] == y[o..o + |piece|];
  }

  /** Part `k` occupies the `k`-th slot of the output, in input order, and a
      separator follows it unless it is the last part. */
  lemma {:induction false} JoinPartAt(parts: seq<string>, sep: string, k: nat)
    requires k < |parts|
    ensures Occupies(Join(parts, sep), Offset(parts, sep, k), parts[k])
    ensures k + 1 < |parts| ==> Occupies(Join(parts, sep), Offset(parts, sep, k) + |parts[k]|, sep)
  {
    if k == 0 {
      assert parts[..0] == [];
      assert Offset(parts, sep, 0) == 0;
      if |parts| > 1 {
        assert Join(parts, sep) == (parts[0] + sep) + Join(parts[1..], sep);
      }
    } else {
      var rest := parts[1..];
      JoinPartAt(rest, sep, k - 1);
      OffsetTail(parts, sep, k);
      var head := parts[0] + sep;
      var o := Offset(rest, sep, k - 1);
      assert Join(parts, sep) == head + Join(rest, sep);
      OccupiesAfterPrefix(head, Join(rest, sep), o, parts[k]);
      if k + 1 < |parts| {
        OccupiesAfterPrefix(head, Join(rest, sep), o + |parts[k]|, sep);
      }
    }
  }
}
