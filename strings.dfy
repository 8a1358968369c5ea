/**
 * The pieces of Python's `str` that the shortener relies on: `sep in s`,
 * `s.split(sep)` and `s.upper()` (ASCII letters only).
 */
module Strings {
  import opened Wrappers

  /** `sep` occurs in `s` starting at index `i`. */
  predicate OccursAt(s: string, sep: string, i: int) {
    0 <= i && i + |sep| <= |s| && s[i..i + |sep|] == sep
  }

  /** `sep` occurs nowhere in `s`. */
  ghost predicate Free(s: string, sep: string) {
    forall i :: !OccursAt(s, sep, i)
  }

  /** Occurrences in a suffix of `s` are occurrences in `s`, shifted by the cut. */
  lemma OccursAtDrop(s: string, sep: string, k: nat, i: int)
    requires k <= |s| && 0 <= i
    ensures OccursAt(s[k..], sep, i) <==> OccursAt(s, sep, i + k)
  {
    if 0 <= i && i + |sep| <= |s| - k {
      assert s[k..][i..i + |sep|] == s[i + k..i + k + |sep|];
    }
  }

  /** Occurrences inside a prefix of `s` are occurrences in `s`. */
  lemma OccursAtTake(s: string, sep: string, k: nat, i: int)
    requires k <= |s| && i + |sep| <= k
    ensures OccursAt(s[..k], sep, i) <==> OccursAt(s, sep, i)
  {
    if 0 <= i {
      assert s[..k][i..i + |sep|] == s[i..i + |sep|];
    }
  }

  /** Python's `sub in s`: whether `sub` is a substring of `s`. */
  function Contains(s: string, sub: string): (b: bool)
    ensures b <==> exists i :: OccursAt(s, sub, i)
    decreases |s|
  {
    if |sub| > |s| then false
    else if s[..|sub|] == sub then assert OccursAt(s, sub, 0); true
    else ContainsFromTail(s, sub); Contains(s[1..], sub)
  }

  /** When `sub` is not a prefix of `s`, it occurs in `s` exactly when it occurs in the tail. */
  lemma ContainsFromTail(s: string, sub: string)
    requires |s| > 0 && !OccursAt(s, sub, 0)
    ensures (exists i :: OccursAt(s, sub, i)) <==> (exists i :: OccursAt(s[1..], sub, i))
  {
    if exists i :: OccursAt(s, sub, i) {
      var i :| OccursAt(s, sub, i);
      OccursAtDrop(s, sub, 1, i - 1);
    }
    if exists i :: OccursAt(s[1..], sub, i) {
      var i :| OccursAt(s[1..], sub, i);
      OccursAtDrop(s, sub, 1, i);
    }
  }

  /** The empty string is a substring of every string. */
  lemma EmptyIsContained(s: string)
    ensures Contains(s, "")
  {
    assert OccursAt(s, "", 0);
  }

  /** If `sep` is not a prefix of `s` and occurs nowhere in its tail, it occurs nowhere in `s`. */
  lemma FreeFromTail(s: string, sep: string)
    requires |s| > 0 && !OccursAt(s, sep, 0) && Free(s[1..], sep)
    ensures Free(s, sep)
  {
    forall i | OccursAt(s, sep, i) ensures false {
      assert i != 0;
      OccursAtDrop(s, sep, 1, i - 1);
    }
  }

  /** A leftmost occurrence at `i` in the tail of `s` is a leftmost occurrence at `i + 1` in `s`. */
  lemma LeftmostFromTail(s: string, sep: string, i: nat)
    requires |s| > 0 && !OccursAt(s, sep, 0) && OccursAt(s[1..], sep, i)
    requires forall j :: 0 <= j < i ==> !OccursAt(s[1..], sep, j)
    ensures OccursAt(s, sep, i + 1)
    ensures forall j :: 0 <= j < i + 1 ==> !OccursAt(s, sep, j)
  {
    OccursAtDrop(s, sep, 1, i);
    forall j | 0 < j < i + 1 ensures !OccursAt(s, sep, j) {
      OccursAtDrop(s, sep, 1, j - 1);
    }
  }

  /** Index of the leftmost occurrence of `sep` in `s`, as `str.find` gives it. */
  function Find(s: string, sep: string): (r: Option<nat>)
    ensures r.Some? ==> OccursAt(s, sep, r.value)
    ensures r.Some? ==> forall j :: 0 <= j < r.value ==> !OccursAt(s, sep, j)
    ensures r.None? ==> Free(s, sep)
    decreases |s|
  {
    if |sep| > |s| then None
    else if s[..|sep|] == sep then Some(0)
    else
      match Find(s[1..], sep)
      case None => FreeFromTail(s, sep); None
      case Some(i) => LeftmostFromTail(s, sep, i); Some(i + 1)
  }

  /**
   * Python's `s.split(sep)` for a non-empty separator: cut `s` at every
   * occurrence of `sep`, scanning from the left and never reusing the
   * characters of an occurrence already cut.
   */
  function Split(s: string, sep: string): (pieces: seq<string>)
    requires |sep| > 0
    ensures |pieces| >= 1
    decreases |s|
  {
    match Find(s, sep)
    case None => [s]
    case Some(i) => [s[..i]] + Split(s[i + |sep|..], sep)
  }

  /** Python's `sep.join(pieces)`. */
  function Join(pieces: seq<string>, sep: string): string
    requires |pieces| >= 1
  {
    if |pieces| == 1 then pieces[0] else pieces[0] + sep + Join(pieces[1..], sep)
  }

  /** `xs[-1]` in Python. */
  function Last<T>(xs: seq<T>): T
    requires |xs| >= 1
  {
    xs[|xs| - 1]
  }

  /** Joining the pieces of a split with the same separator gives back the string. */
  lemma {:induction false} SplitJoin(s: string, sep: string)
    requires |sep| > 0
    ensures Join(Split(s, sep), sep) == s
    decreases |s|
  {
    match Find(s, sep)
    case None =>
    case Some(i) =>
      var rest := s[i + |sep|..];
      var pieces := Split(s, sep);
      assert pieces == [s[..i]] + Split(rest, sep);
      assert pieces[1..] == Split(rest, sep);
      SplitJoin(rest, sep);
      calc {
        Join(pieces, sep);
        s[..i] + sep + Join(Split(rest, sep), sep);
        s[..i] + sep + rest;
        { assert s[i..i + |sep|] == sep; }
        s;
      }
  }

  /** No piece of a split contains the separator. */
  lemma {:induction false} SplitPiecesFree(s: string, sep: string, k: nat)
    requires |sep| > 0 && k < |Split(s, sep)|
    ensures Free(Split(s, sep)[k], sep)
    decreases |s|
  {
    match Find(s, sep)
    case None =>
    case Some(i) =>
      if k == 0 {
        forall j ensures !OccursAt(s[..i], sep, j) {
          if j + |sep| <= i { OccursAtTake(s, sep, i, j); }
        }
      } else {
        SplitPiecesFree(s[i + |sep|..], sep, k - 1);
      }
  }

  /**
   * `s.split(sep)[0]` is the prefix of `s` before the leftmost occurrence
   * of `sep`, or all of `s` when `sep` does not occur.
   */
  lemma FirstPiece(s: string, sep: string)
    requires |sep| > 0
    ensures var p := Split(s, sep)[0];
      && |p| <= |s| && p == s[..|p|]
      && Free(p, sep)
      && (forall j :: 0 <= j < |p| ==> !OccursAt(s, sep, j))
      && ((p == s && Free(s, sep)) || OccursAt(s, sep, |p|))
  {
    SplitPiecesFree(s, sep, 0);
  }

  /**
   * `p` is a suffix of `s` that is either all of `s`, with no `sep` in
   * `s`, or starts right after an occurrence of `sep`.
   */
  ghost predicate SuffixAfterSep(s: string, sep: string, p: string) {
    && |p| <= |s| && p == s[|s| - |p|..]
    && ((p == s && Free(s, sep)) || OccursAt(s, sep, |s| - |p| - |sep|))
  }

  /** A suffix that starts after an occurrence in `s[i + |sep|..]` also does so in `s`. */
  lemma SuffixAfterCut(s: string, sep: string, i: nat, p: string)
    requires OccursAt(s, sep, i)
    requires SuffixAfterSep(s[i + |sep|..], sep, p)
    ensures SuffixAfterSep(s, sep, p)
  {
    var rest := s[i + |sep|..];
    assert s[|s| - |p|..] == rest[|rest| - |p|..];
    if p == rest && Free(rest, sep) {
      assert |s| - |p| - |sep| == i;
    } else {
      OccursAtDrop(s, sep, i + |sep|, |rest| - |p| - |sep|);
    }
  }

  /** `s.split(sep)[-1]` is a suffix of `s` as `SuffixAfterSep` describes. */
  lemma {:induction false} LastPieceSuffix(s: string, sep: string)
    requires |sep| > 0
    ensures SuffixAfterSep(s, sep, Last(Split(s, sep)))
    decreases |s|
  {
    match Find(s, sep)
    case None =>
      assert Split(s, sep) == [s];
    case Some(i) =>
      var rest := s[i + |sep|..];
      var tail := Split(rest, sep);
      assert Split(s, sep) == [s[..i]] + tail;
      assert Last(Split(s, sep)) == Last(tail);
      LastPieceSuffix(rest, sep);
      SuffixAfterCut(s, sep, i, Last(tail));
  }

  /** No occurrence of `sep` lies inside `s[..i]` when `i` is its leftmost occurrence in `s`. */
  lemma FreeBeforeFirst(s: string, sep: string, i: nat)
    requires |sep| > 0 && i <= |s| && forall j :: 0 <= j < i ==> !OccursAt(s, sep, j)
    ensures Free(s[..i], sep)
  {
    forall j ensures !OccursAt(s[..i], sep, j) {
      if 0 <= j && j + |sep| <= i { OccursAtTake(s, sep, i, j); }
    }
  }

  /** `Find` gives the leftmost occurrence, whichever way it was found. */
  lemma FindIsLeftmost(s: string, sep: string, i: nat)
    requires OccursAt(s, sep, i) && forall j :: 0 <= j < i ==> !OccursAt(s, sep, j)
    ensures Find(s, sep) == Some(i)
  {
    var f := Find(s, sep);
    assert f.Some?;
    assert !(f.value < i);
    assert !(f.value > i);
  }

  /** One step of the left-to-right scan: the first piece, then the pieces of the rest. */
  lemma SplitAtFirst(s: string, sep: string, i: nat)
    requires |sep| > 0 && Find(s, sep) == Some(i)
    ensures Split(s, sep) == [s[..i]] + Split(s[i + |sep|..], sep)
  {
    assert OccursAt(s, sep, i);
    SplitAt(s, sep, i, s[i + |sep|..]);
  }

  /** `SplitAtFirst` with the rest of the text named. */
  lemma SplitAt(s: string, sep: string, i: nat, rest: string)
    requires |sep| > 0 && Find(s, sep) == Some(i) && i + |sep| <= |s| && rest == s[i + |sep|..]
    ensures Split(s, sep) == [s[..i]] + Split(rest, sep)
  {
  }

  /** Splitting a prefix of `s` that contains its first cut makes that same first cut. */
  lemma SplitPrefixFirstCut(s: string, sep: string, k: nat, i: nat, mid: string)
    requires |sep| > 0 && Find(s, sep) == Some(i) && i + |sep| <= k <= |s| && mid == s[i + |sep|..k]
    ensures Split(s[..k], sep) == [s[..i]] + Split(mid, sep)
  {
    var t := s[..k];
    OccursAtTake(s, sep, k, i);
    forall j | 0 <= j < i ensures !OccursAt(t, sep, j) {
      OccursAtTake(s, sep, k, j);
    }
    FindIsLeftmost(t, sep, i);
    assert t[..i] == s[..i];
    assert t[i + |sep|..] == mid;
    SplitAt(t, sep, i, mid);
  }

  /** A prefix of a suffix is a slice. */
  lemma SliceOfSuffix(s: string, a: nat, n: nat)
    requires a + n <= |s|
    ensures s[a..][..n] == s[a..a + n]
  {
  }

  /**
   * `p` is the last piece of `s` after a cut the left-to-right scan makes:
   * the pieces of `s` are those of the text before the cut, then `p`.
   */
  ghost predicate LastCut(s: string, sep: string, p: string)
    requires |sep| > 0
  {
    |p| + |sep| <= |s| && Split(s, sep) == Split(s[..|s| - |p| - |sep|], sep) + [p]
  }

  /** When nothing after the first cut holds `sep`, the first cut is the last one. */
  lemma LastCutFirst(s: string, sep: string)
    requires |sep| > 0 && Find(s, sep).Some?
    requires Free(s[Find(s, sep).value + |sep|..], sep)
    ensures LastCut(s, sep, s[Find(s, sep).value + |sep|..])
  {
    var i := Find(s, sep).value;
    var head, rest := s[..i], s[i + |sep|..];
    SplitAt(s, sep, i, rest);
    assert Split(rest, sep) == [rest];
    FreeBeforeFirst(s, sep, i);
    assert Split(head, sep) == [head];
    LastCutIntro(s, sep, rest, head);
  }

  /** A last cut in the text after the first cut is a last cut in `s`. */
  lemma LastCutStep(s: string, sep: string, i: nat, p: string)
    requires |sep| > 0 && Find(s, sep) == Some(i) && i + |sep| <= |s|
    requires LastCut(s[i + |sep|..], sep, p)
    ensures LastCut(s, sep, p)
  {
    var head, rest, mid, before := StepPieces(s, sep, i, p);
    Regroup(Split(s, sep), Split(rest, sep), Split(mid, sep), Split(before, sep), head, p);
    LastCutIntro(s, sep, p, before);
  }

  /**
   * The pieces `LastCutStep` regroups: the first piece `head`, the text
   * `rest` after the first cut, the text `mid` of `rest` before its last
   * cut, and the text `before` of `s` before that same cut.
   */
  lemma StepPieces(s: string, sep: string, i: nat, p: string) returns (head: string, rest: string, mid: string, before: string)
    requires |sep| > 0 && Find(s, sep) == Some(i) && i + |sep| <= |s|
    requires LastCut(s[i + |sep|..], sep, p)
    ensures Split(s, sep) == [head] + Split(rest, sep)
    ensures Split(rest, sep) == Split(mid, sep) + [p]
    ensures Split(before, sep) == [head] + Split(mid, sep)
    ensures |p| + |sep| <= |s| && before == s[..|s| - |p| - |sep|]
  {
    head, rest := s[..i], s[i + |sep|..];
    var k := |s| - |p| - |sep|;
    var k' := |rest| - |p| - |sep|;
    mid, before := rest[..k'], s[..k];
    SliceOfSuffix(s, i + |sep|, k');
    SplitAt(s, sep, i, rest);
    SplitPrefixFirstCut(s, sep, k, i, mid);
  }

  /** `LastCut` from its two halves, with the text before the cut named. */
  lemma LastCutIntro(s: string, sep: string, p: string, before: string)
    requires |sep| > 0 && |p| + |sep| <= |s| && before == s[..|s| - |p| - |sep|]
    requires Split(s, sep) == Split(before, sep) + [p]
    ensures LastCut(s, sep, p)
  {
  }

  /** Regrouping piece lists: a first piece, a middle run and a last piece. */
  lemma Regroup(whole: seq<string>, after: seq<string>, before: seq<string>, prefix: seq<string>, x: string, p: string)
    requires whole == [x] + after && after == before + [p] && prefix == [x] + before
    ensures whole == prefix + [p]
  {
  }

  /** `s.split(sep)[-1]` follows the last cut the left-to-right scan makes, when `sep` occurs. */
  lemma {:induction false} LastPieceCut(s: string, sep: string)
    requires |sep| > 0 && !Free(s, sep)
    ensures LastCut(s, sep, Last(Split(s, sep)))
    decreases |s|
  {
    var i := Find(s, sep).value;
    var rest := s[i + |sep|..];
    var tail := Split(rest, sep);
    assert Split(s, sep) == [s[..i]] + tail by {
      SplitAtFirst(s, sep, i);
    }
    assert Last(Split(s, sep)) == Last(tail);
    if Free(rest, sep) {
      assert tail == [rest];
      LastCutFirst(s, sep);
    } else {
      LastPieceCut(rest, sep);
      LastCutStep(s, sep, i, Last(tail));
    }
  }

  /**
   * `s.split(sep)[-1]` is a suffix of `s` free of `sep` that is either all
   * of `s` (when `sep` does not occur) or starts right after an occurrence,
   * and then it is the piece after the last cut of the scan.
   */
  lemma LastPiece(s: string, sep: string)
    requires |sep| > 0
    ensures var p := Last(Split(s, sep));
      && SuffixAfterSep(s, sep, p)
      && Free(p, sep)
      && (!Free(s, sep) ==> LastCut(s, sep, p))
  {
    var p := Last(Split(s, sep));
    assert SuffixAfterSep(s, sep, p) by {
      LastPieceSuffix(s, sep);
    }
    assert Free(p, sep) by {
      SplitPiecesFree(s, sep, |Split(s, sep)| - 1);
    }
    if !Free(s, sep) {
      assert LastCut(s, sep, p) by {
        LastPieceCut(s, sep);
      }
    }
  }

  /** For a one-character separator, occurrence is a character test. */
  lemma OccursAtChar(s: string, c: char, i: int)
    ensures OccursAt(s, [c], i) <==> 0 <= i < |s| && s[i] == c
  {
    if 0 <= i < |s| {
      assert s[i..i + 1] == [s[i]];
    }
  }

  /** For a one-character separator, being free of it is not containing the character. */
  lemma FreeChar(s: string, c: char)
    ensures Free(s, [c]) <==> c !in s
  {
    if c in s {
      var i :| 0 <= i < |s| && s[i] == c;
      OccursAtChar(s, c, i);
    } else {
      forall i ensures !OccursAt(s, [c], i) { OccursAtChar(s, c, i); }
    }
  }

  /** `c.upper()` restricted to ASCII: a..z become A..Z, everything else is kept. */
  function UpperChar(c: char): (u: char)
    ensures 'a' <= c <= 'z' ==> 'A' <= u <= 'Z' && u as int - 'A' as int == c as int - 'a' as int
    ensures !('a' <= c <= 'z') ==> u == c
  {
    if 'a' <= c <= 'z' then (c as int - 'a' as int + 'A' as int) as char else c
  }

  /** `s.upper()` restricted to ASCII letters. */
  function Upper(s: string): (u: string)
    ensures |u| == |s|
    ensures forall i :: 0 <= i < |s| ==> u[i] == UpperChar(s[i])
  {
    seq(|s|, i requires 0 <= i < |s| => UpperChar(s[i]))
  }

  /** Upper-casing twice is upper-casing once, and leaves no lower-case ASCII letter. */
  lemma UpperIdempotent(s: string)
    ensures Upper(Upper(s)) == Upper(s)
    ensures forall i :: 0 <= i < |s| ==> !('a' <= Upper(s)[i] <= 'z')
  {
  }
}
