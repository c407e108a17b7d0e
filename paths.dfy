/**
 * Path segmentation as performed by `strtok_r(path, "/", &saveptr)`:
 * a path is read as the maximal non-empty runs of characters other than '/',
 * so leading, trailing and repeated slashes are ignored.
 *
 * `Strtok` models one call (the token it returns and where the save pointer
 * is left), `SegmentsFrom` the whole sequence of calls.  `Split` is an
 * independent reference: the naive split on every '/', empty pieces kept.
 */
module Paths {

  /** What one `strtok_r` call yields: a token and the saved position, or NULL. */
  datatype Tok = Tok(text: string, saved: nat) | End

  /** A segment as a tree node name: non-empty and without '/'. */
  predicate IsSegment(s: string) {
    s != [] && '/' !in s
  }

  /** First position at or after `i` that is not a '/' (strtok's leading-delimiter skip). */
  function SkipSlashes(s: string, i: nat): (j: nat)
    requires i <= |s|
    ensures i <= j <= |s|
    ensures forall m :: i <= m < j ==> s[m] == '/'
    ensures j < |s| ==> s[j] != '/'
    decreases |s| - i
  {
    if i < |s| && s[i] == '/' then SkipSlashes(s, i + 1) else i
  }

  /** First position at or after `i` that holds a '/', or `|s|`. */
  function TokenEnd(s: string, i: nat): (k: nat)
    requires i <= |s|
    ensures i <= k <= |s|
    ensures forall m :: i <= m < k ==> s[m] != '/'
    ensures k < |s| ==> s[k] == '/'
    decreases |s| - i
  {
    if i < |s| && s[i] != '/' then TokenEnd(s, i + 1) else i
  }

  /**
   * One `strtok_r` call resumed at `pos`: skip delimiters, take the run up to
   * the next '/', overwrite that '/' (if any) and save the position after it.
   */
  function Strtok(s: string, pos: nat): (t: Tok)
    requires pos <= |s|
    ensures t.End? <==> forall m :: pos <= m < |s| ==> s[m] == '/'
    ensures t.Tok? ==> pos < t.saved <= |s| && IsSegment(t.text)
    ensures t.Tok? ==> t.saved == |s| || s[t.saved - 1] == '/'
  {
    var j := SkipSlashes(s, pos);
    if j == |s| then End
    else
      var k := TokenEnd(s, j);
      assert forall c :: c in s[j..k] ==> c != '/' by {
        forall c | c in s[j..k] ensures c != '/' {
          var m :| 0 <= m < k - j && s[j..k][m] == c;
          assert s[j + m] == c;
        }
      }
      Tok(s[j..k], if k < |s| then k + 1 else k)
  }

  /**
   * Where a token sits: it ends at the '/' just before the saved position, or at
   * the end of `s`, and only '/'s lie between the resume position and its start.
   */
  lemma StrtokLocates(s: string, pos: nat)
    requires pos <= |s| && Strtok(s, pos).Tok?
    ensures var t := Strtok(s, pos);
      var e := if s[t.saved - 1] == '/' then t.saved - 1 else t.saved;
      pos + |t.text| <= e && t.text == s[e - |t.text|..e] &&
      forall m :: pos <= m < e - |t.text| ==> s[m] == '/'
  {
    var j := SkipSlashes(s, pos);
    var k := TokenEnd(s, j);
    assert Strtok(s, pos).text == s[j..k];
  }

  /** The tokens `strtok_r` returns from `pos` on, in order. */
  function SegmentsFrom(s: string, pos: nat): (segs: seq<string>)
    requires pos <= |s|
    ensures forall i :: 0 <= i < |segs| ==> IsSegment(segs[i])
    ensures |segs| <= |s| - pos
    decreases |s| - pos
  {
    match Strtok(s, pos)
    case End => []
    case Tok(t, p) => [t] + SegmentsFrom(s, p)
  }

  /** The segments of a whole path. */
  function Segments(s: string): (segs: seq<string>)
    ensures forall i :: 0 <= i < |segs| ==> IsSegment(segs[i])
    ensures |segs| <= |s|
  {
    SegmentsFrom(s, 0)
  }

  /** Reference: split at every '/', keeping the empty pieces. */
  function Split(s: string): (parts: seq<string>)
    ensures |parts| >= 1
  {
    if s == [] then [[]]
    else
      var rest := Split(s[1..]);
      if s[0] == '/' then [[]] + rest
      else [[s[0]] + rest[0]] + rest[1..]
  }

  /** Reference: drop the empty pieces. */
  function NonEmpty(parts: seq<string>): seq<string> {
    if parts == [] then []
    else if parts[0] == [] then NonEmpty(parts[1..])
    else [parts[0]] + NonEmpty(parts[1..])
  }

  /** The absolute path "/s1/s2/.../sn" of a sequence of segments ("" for none). */
  function AbsPath(segs: seq<string>): string {
    if segs == [] then [] else AbsPath(segs[..|segs| - 1]) + "/" + segs[|segs| - 1]
  }

  lemma {:induction false} NonEmptyAppend(a: seq<string>, b: seq<string>)
    ensures NonEmpty(a + b) == NonEmpty(a) + NonEmpty(b)
  {
    if a != [] {
      assert (a + b)[1..] == a[1..] + b;
      NonEmptyAppend(a[1..], b);
    } else {
      assert a + b == b;
    }
  }

  /** Splitting at a '/' splits the pieces: the law behind "empty segments are harmless". */
  lemma {:induction false} SplitJoin(a: string, b: string)
    ensures Split(a + "/" + b) == Split(a) + Split(b)
  {
    if a == [] {
      assert a + "/" + b == "/" + b;
      assert ("/" + b)[1..] == b;
    } else {
      assert (a + "/" + b)[1..] == a[1..] + "/" + b;
      SplitJoin(a[1..], b);
    }
  }

  lemma {:induction false} SplitNoSlash(t: string)
    requires '/' !in t
    ensures Split(t) == [t]
  {
    if t != [] {
      assert '/' !in t[1..] by {
        forall c | c in t[1..] ensures c != '/' {
          var m :| 0 <= m < |t| - 1 && t[1..][m] == c;
          assert t[m + 1] == c;
        }
      }
      SplitNoSlash(t[1..]);
      assert [t[0]] + t[1..] == t;
    }
  }

  /** A '/' at `pos` is skipped by `strtok_r` without effect on what follows. */
  lemma SegmentsFromSlash(s: string, pos: nat)
    requires pos < |s| && s[pos] == '/'
    ensures SegmentsFrom(s, pos) == SegmentsFrom(s, pos + 1)
  {
    assert SkipSlashes(s, pos) == SkipSlashes(s, pos + 1);
    assert Strtok(s, pos) == Strtok(s, pos + 1);
  }

  /** The naive split of the suffix that starts at `i`, computed position by position. */
  function SplitFrom(s: string, i: nat): (parts: seq<string>)
    requires i <= |s|
    ensures |parts| >= 1
    decreases |s| - i
  {
    if i == |s| then [[]]
    else
      var rest := SplitFrom(s, i + 1);
      if s[i] == '/' then [[]] + rest
      else [[s[i]] + rest[0]] + rest[1..]
  }

  lemma {:induction false} SplitFromIsSplit(s: string, i: nat)
    requires i <= |s|
    ensures SplitFrom(s, i) == Split(s[i..])
    decreases |s| - i
  {
    if i < |s| {
      SplitFromIsSplit(s, i + 1);
      assert s[i..][1..] == s[i + 1..];
    } else {
      assert s[i..] == [];
    }
  }

  /** A run of non-'/' characters from `i`, ended by a '/' at `k` or by the end, is the first piece. */
  lemma {:induction false} SplitFromRun(s: string, i: nat, k: nat)
    requires i <= k <= |s|
    requires forall m :: i <= m < k ==> s[m] != '/'
    requires k == |s| || s[k] == '/'
    ensures SplitFrom(s, i) == [s[i..k]] + (if k == |s| then [] else SplitFrom(s, k + 1))
    decreases k - i
  {
    if i < k {
      SplitFromRun(s, i + 1, k);
      assert [s[i]] + s[i + 1..k] == s[i..k];
    } else {
      assert s[i..k] == [];
    }
  }

  /** At a non-'/' position, `strtok_r` returns the run up to the next '/'. */
  lemma StrtokAtToken(s: string, pos: nat)
    requires pos < |s| && s[pos] != '/'
    ensures Strtok(s, pos) ==
              Tok(s[pos..TokenEnd(s, pos)], if TokenEnd(s, pos) < |s| then TokenEnd(s, pos) + 1 else |s|)
  {
    assert SkipSlashes(s, pos) == pos;
  }

  /** One `strtok_r` call that yields a token contributes that token, then the rest. */
  lemma SegmentsFromTok(s: string, pos: nat, text: string, saved: nat)
    requires pos <= |s| && Strtok(s, pos) == Tok(text, saved)
    ensures SegmentsFrom(s, pos) == [text] + SegmentsFrom(s, saved)
  {
  }

  lemma NonEmptyCons(x: string, rest: seq<string>)
    ensures NonEmpty([x] + rest) == if x == [] then NonEmpty(rest) else [x] + NonEmpty(rest)
  {
    assert ([x] + rest)[1..] == rest;
  }

  /** A '/' at `pos`: `strtok_r` skips it and the naive split starts an empty piece. */
  lemma SlashStep(s: string, pos: nat)
    requires pos < |s| && s[pos] == '/'
    requires SegmentsFrom(s, pos + 1) == NonEmpty(SplitFrom(s, pos + 1))
    ensures SegmentsFrom(s, pos) == NonEmpty(SplitFrom(s, pos))
  {
    SegmentsFromSlash(s, pos);
    NonEmptyCons([], SplitFrom(s, pos + 1));
  }

  /** A token at `pos` ended by a '/': both sides produce it, then agree on what follows. */
  lemma TokenStep(s: string, pos: nat)
    requires pos < |s| && s[pos] != '/' && TokenEnd(s, pos) < |s|
    requires SegmentsFrom(s, TokenEnd(s, pos) + 1) == NonEmpty(SplitFrom(s, TokenEnd(s, pos) + 1))
    ensures SegmentsFrom(s, pos) == NonEmpty(SplitFrom(s, pos))
  {
    var k := TokenEnd(s, pos);
    StrtokAtToken(s, pos);
    SegmentsFromTok(s, pos, s[pos..k], k + 1);
    SplitFromRun(s, pos, k);
    NonEmptyCons(s[pos..k], SplitFrom(s, k + 1));
  }

  /** A token at `pos` that runs to the end of the string: it is all either side produces. */
  lemma LastTokenStep(s: string, pos: nat)
    requires pos < |s| && s[pos] != '/' && TokenEnd(s, pos) == |s|
    ensures SegmentsFrom(s, pos) == NonEmpty(SplitFrom(s, pos))
  {
    StrtokAtToken(s, pos);
    SegmentsFromTok(s, pos, s[pos..|s|], |s|);
    assert Strtok(s, |s|) == End;
    SplitFromRun(s, pos, |s|);
    NonEmptyCons(s[pos..|s|], []);
  }

  /** The `strtok_r` segmentation is the naive split with empty pieces dropped. */
  lemma {:induction false} SegmentsFromIsNonEmptySplit(s: string, pos: nat)
    requires pos <= |s|
    ensures SegmentsFrom(s, pos) == NonEmpty(SplitFrom(s, pos))
    decreases |s| - pos
  {
    if pos == |s| {
      assert Strtok(s, pos) == End;
    } else if s[pos] == '/' {
      SegmentsFromIsNonEmptySplit(s, pos + 1);
      SlashStep(s, pos);
    } else if TokenEnd(s, pos) < |s| {
      SegmentsFromIsNonEmptySplit(s, TokenEnd(s, pos) + 1);
      TokenStep(s, pos);
    } else {
      LastTokenStep(s, pos);
    }
  }

  lemma SegmentsIsNonEmptySplit(s: string)
    ensures Segments(s) == NonEmpty(Split(s))
  {
    SegmentsFromIsNonEmptySplit(s, 0);
    SplitFromIsSplit(s, 0);
    assert s[0..] == s;
  }

  /** Segmenting "a/b" gives the segments of a, then those of b. */
  lemma SegmentsJoin(a: string, b: string)
    ensures Segments(a + "/" + b) == Segments(a) + Segments(b)
  {
    SegmentsIsNonEmptySplit(a + "/" + b);
    SegmentsIsNonEmptySplit(a);
    SegmentsIsNonEmptySplit(b);
    SplitJoin(a, b);
    NonEmptyAppend(Split(a), Split(b));
  }

  /** A single segment segments to itself. */
  lemma SegmentsOfSegment(x: string)
    requires IsSegment(x)
    ensures Segments(x) == [x]
  {
    SegmentsIsNonEmptySplit(x);
    SplitNoSlash(x);
  }

  /** Empty segments are ignored: a doubled '/' changes nothing. */
  lemma DoubleSlashIgnored(a: string, b: string)
    ensures Segments(a + "//" + b) == Segments(a + "/" + b)
  {
    assert a + "//" + b == a + "/" + ("/" + b);
    SegmentsJoin(a, "/" + b);
    LeadingSlashIgnored(b);
    SegmentsJoin(a, b);
  }

  /** Empty segments are ignored: a leading '/' changes nothing. */
  lemma LeadingSlashIgnored(a: string)
    ensures Segments("/" + a) == Segments(a)
  {
    assert [] + "/" + a == "/" + a;
    SegmentsJoin([], a);
    assert Segments([]) == [];
  }

  /** Empty segments are ignored: a trailing '/' changes nothing. */
  lemma TrailingSlashIgnored(a: string)
    ensures Segments(a + "/") == Segments(a)
  {
    assert a + "/" + [] == a + "/";
    SegmentsJoin(a, []);
    assert Segments([]) == [];
  }

  /** Round trip: the absolute path built from segments segments back to them. */
  lemma {:induction false} SegmentsOfAbsPath(segs: seq<string>)
    requires forall i :: 0 <= i < |segs| ==> IsSegment(segs[i])
    ensures Segments(AbsPath(segs)) == segs
  {
    if segs == [] {
      assert Segments([]) == [];
    } else {
      var init, last := segs[..|segs| - 1], segs[|segs| - 1];
      SegmentsOfAbsPath(init);
      SegmentsJoin(AbsPath(init), last);
      SegmentsOfSegment(last);
      assert init + [last] == segs;
    }
  }

  /**
   * The caller's path as a C string after the first `strtok_r` call on it: the '/'
   * that ends the first token is overwritten with NUL, so only the leading slashes
   * and the first segment remain visible.  A path without segments is untouched.
   */
  function AfterStrtok(s: string): (r: string)
    ensures r <= s
    ensures r == s || s[|r|] == '/'
  {
    var j := SkipSlashes(s, 0);
    if j == |s| then s else s[..TokenEnd(s, j)]
  }

  /** What survives the first `strtok_r` call segments to the first segment alone. */
  lemma AfterStrtokFirstSegment(s: string)
    ensures Segments(s) == [] ==> AfterStrtok(s) == s
    ensures Segments(s) != [] ==> Segments(AfterStrtok(s)) == [Segments(s)[0]]
  {
    var j := SkipSlashes(s, 0);
    if j < |s| {
      var k := TokenEnd(s, j);
      var t := s[..k];
      assert SkipSlashes(t, 0) == j;
      assert TokenEnd(t, j) == k;
      assert t[j..k] == s[j..k];
      assert Strtok(t, k) == End;
      assert Segments(t) == [t[j..k]] + SegmentsFrom(t, k);
    }
  }
}
