/**
 * The path rewriting of `get_all_files_in_folder`: the walk's Windows-style paths become the
 * keys of the metadata by deleting every `.\` and then turning every `\` into `/`.
 */
module Paths {

  /**
   * Python's `s.replace(pat, rep)` for a non-empty `pat`: occurrences are found left to
   * right, and scanning resumes after each replaced one, so they never overlap.
   */
  function Replace(s: string, pat: string, rep: string): (r: string)
    requires |pat| > 0
    ensures |rep| <= |pat| ==> |r| <= |s|
    ensures |rep| == |pat| ==> |r| == |s|
    decreases |s|
  {
    if |s| < |pat| then s
    else if s[..|pat|] == pat then rep + Replace(s[|pat|..], pat, rep)
    else [s[0]] + Replace(s[1..], pat, rep)
  }

  /** `pat` occurs in `s` at index `i`. */
  predicate MatchAt(s: string, pat: string, i: int) {
    0 <= i <= |s| - |pat| && s[i..i + |pat|] == pat
  }

  /** `pat` occurs somewhere in `s`. */
  ghost predicate Occurs(s: string, pat: string) {
    exists i :: MatchAt(s, pat, i)
  }

  /** The character-by-character reference for replacing `\` by `/`. */
  function Slashes(s: string): string {
    seq(|s|, i requires 0 <= i < |s| => if s[i] == '\\' then '/' else s[i])
  }

  predicate NoBackslash(s: string) {
    forall i :: 0 <= i < |s| ==> s[i] != '\\'
  }

  /** Lines 116-117 as written: the result is no longer than the walked path and has no backslash. */
  function Normalize(p: string): (r: string)
    ensures |r| <= |p|
    ensures NoBackslash(r)
  {
    var q := Replace(p, ".\\", "");
    ReplaceBackslash(q);
    Replace(q, "\\", "/")
  }

  // ---------------------------------------------------------------------------
  // Replacement

  /** Replacing a pattern that does not occur changes nothing. */
  lemma {:induction false} ReplaceAbsent(s: string, pat: string, rep: string)
    requires |pat| > 0 && !Occurs(s, pat)
    ensures Replace(s, pat, rep) == s
    decreases |s|
  {
    if |s| >= |pat| {
      assert !MatchAt(s, pat, 0);
      assert s[0..|pat|] == s[..|pat|];
      var t := s[1..];
      forall i | MatchAt(t, pat, i) ensures MatchAt(s, pat, i + 1) {
        assert s[i + 1..i + 1 + |pat|] == t[i..i + |pat|];
      }
      ReplaceAbsent(t, pat, rep);
    }
  }

  /** Replacing the one-character `\` by `/` is the character-by-character rewrite. */
  lemma {:induction false} ReplaceBackslash(s: string)
    ensures Replace(s, "\\", "/") == Slashes(s)
    decreases |s|
  {
    if |s| >= 1 {
      ReplaceBackslash(s[1..]);
      var head: string := if s[0] == '\\' then "/" else [s[0]];
      assert Replace(s, "\\", "/") == head + Slashes(s[1..]);
      assert head + Slashes(s[1..]) == Slashes(s);
    }
  }

  // ---------------------------------------------------------------------------
  // What the normalisation promises

  /**
   * The normalised path is the path left by the first replacement, with every `\` turned
   * into `/` and nothing else changed. (That path can still hold a `.\`: the replacement
   * does not rescan what it produces, so `..\\x` leaves `.\x`.)
   */
  lemma NormalizeSlashes(p: string)
    ensures Normalize(p) == Slashes(Replace(p, ".\\", ""))
  {
    ReplaceBackslash(Replace(p, ".\\", ""));
  }

  /** A path without a backslash (a POSIX path, `./` prefix included) is returned unchanged. */
  lemma PosixUnchanged(p: string)
    requires NoBackslash(p)
    ensures Normalize(p) == p
  {
    NoBackslashNoDotBackslash(p);
    ReplaceAbsent(p, ".\\", "");
    BackslashFree(p);
  }

  /** Without a backslash there is nothing for the second replacement to do. */
  lemma BackslashFree(s: string)
    requires NoBackslash(s)
    ensures Replace(s, "\\", "/") == s
  {
    ReplaceBackslash(s);
    assert Slashes(s) == s;
  }

  /** Normalising twice is normalising once. */
  lemma NormalizeIdempotent(p: string)
    ensures Normalize(Normalize(p)) == Normalize(p)
  {
    NormalizeSlashes(p);
    PosixUnchanged(Normalize(p));
  }

  lemma NoBackslashNoDotBackslash(s: string)
    requires NoBackslash(s)
    ensures !Occurs(s, ".\\")
  {
    forall i | 0 <= i <= |s| - 2 ensures !MatchAt(s, ".\\", i) {
      assert s[i..i + 2][1] == s[i + 1];
    }
  }

  // ---------------------------------------------------------------------------
  // The `..\` finding

  /**
   * As written, the `.\` inside a parent component `..\` is deleted too: a path walked from
   * `..\` loses its parent step, `..\r` becoming `.r`.
   */
  lemma {:induction false} NormalizeDropsParent(r: string)
    ensures Normalize("..\\" + r) == "." + Normalize(r)
  {
    var p, q := "..\\" + r, ".\\" + r;
    assert p[1..] == q;
    assert p[..2] == "..";
    assert Replace(p, ".\\", "") == ['.'] + Replace(q, ".\\", "");
    assert q[..2] == ".\\" && q[2..] == r;
    var x := Replace(r, ".\\", "");
    assert Replace(q, ".\\", "") == x;
    assert Replace(['.'] + x, "\\", "/") == ['.'] + Replace(x, "\\", "/") by {
      assert (['.'] + x)[1..] == x;
    }
  }

  /** For instance `..\a.txt` is recorded as `.a.txt`. */
  lemma NormalizeBreaksParent(p: string)
    requires p == "..\\a.txt"
    ensures Normalize(p) == ".a.txt"
  {
    var r := "a.txt";
    assert p == "..\\" + r;
    assert NoBackslash(r);
    PosixUnchanged(r);
    NormalizeDropsParent(r);
  }

  /**
   * Deletes a `.\` only where it is a whole path component: at the start of the path
   * (`atStart`) or right after a separator.
   */
  function StripCurrent(s: string, atStart: bool): string
    decreases |s|
  {
    if |s| == 0 then s
    else if atStart && |s| >= 2 && s[..2] == ".\\" then StripCurrent(s[2..], true)
    else [s[0]] + StripCurrent(s[1..], s[0] == '\\')
  }

  /** The evidently intended normalisation: drop `.` components, then use `/` separators. */
  function Fixed(p: string): string {
    Slashes(StripCurrent(p, true))
  }

  /** Every `.\` in `s` begins a component (`atStart` says whether `s` begins one). */
  predicate DotsAreComponents(s: string, atStart: bool) {
    forall i {:trigger s[i]} :: 0 <= i <= |s| - 2 && s[i] == '.' && s[i + 1] == '\\' ==>
      if i == 0 then atStart else s[i - 1] == '\\'
  }

  /** Where every `.\` is a whole component, deleting them all and deleting components agree. */
  lemma {:induction false} StripAgrees(s: string, atStart: bool)
    requires DotsAreComponents(s, atStart)
    ensures StripCurrent(s, atStart) == Replace(s, ".\\", "")
    decreases |s|
  {
    if |s| == 0 {
    } else if |s| < 2 {
      assert StripCurrent(s[1..], s[0] == '\\') == [];
    } else if s[..2] == ".\\" {
      assert s[0] == '.' && s[1] == '\\';
      assert atStart;
      assert Replace(s, ".\\", "") == Replace(s[2..], ".\\", "");
      assert StripCurrent(s, atStart) == StripCurrent(s[2..], true);
      assert DotsAreComponents(s[2..], true) by {
        forall i | 0 <= i <= |s[2..]| - 2 && s[2..][i] == '.' && s[2..][i + 1] == '\\'
          ensures if i == 0 then true else s[2..][i - 1] == '\\'
        {
          assert s[i + 2] == '.' && s[i + 3] == '\\';
        }
      }
      StripAgrees(s[2..], true);
    } else {
      assert DotsAreComponents(s[1..], s[0] == '\\') by {
        forall i | 0 <= i <= |s[1..]| - 2 && s[1..][i] == '.' && s[1..][i + 1] == '\\'
          ensures if i == 0 then s[0] == '\\' else s[1..][i - 1] == '\\'
        {
          assert s[i + 1] == '.' && s[i + 2] == '\\';
        }
      }
      StripAgrees(s[1..], s[0] == '\\');
    }
  }

  /** On every path whose `.\` are whole components, the correction agrees with lines 116-117. */
  lemma FixedAgrees(p: string)
    requires DotsAreComponents(p, true)
    ensures Fixed(p) == Normalize(p)
  {
    StripAgrees(p, true);
    NormalizeSlashes(p);
  }

  /** The corrected normalisation keeps a parent component. */
  lemma {:induction false} FixedKeepsParent(r: string)
    ensures Fixed("..\\" + r) == "../" + Fixed(r)
  {
    var s := "..\\" + r;
    assert s[0] == '.' && s[1] == '.' && s[2] == '\\';
    assert s[1..][1..] == "\\" + r;
    assert s[1..][1..][1..] == r;
    assert StripCurrent(s[1..][1..], false) == ['\\'] + StripCurrent(r, true);
    assert StripCurrent(s[1..], false) == ['.'] + StripCurrent(s[1..][1..], false);
    assert StripCurrent(s, true) == ['.'] + StripCurrent(s[1..], false);
    assert StripCurrent(s, true) == "..\\" + StripCurrent(r, true);
    assert Slashes("..\\" + StripCurrent(r, true)) == "../" + Slashes(StripCurrent(r, true));
  }

  /** The corrected normalisation also yields paths without a backslash. */
  lemma FixedNoBackslash(p: string)
    ensures NoBackslash(Fixed(p))
  {
  }

  /**
   * The listing loop of `get_all_files_in_folder` (lines 113-118): one normalised path per
   * walked file, in walk order. `walked` holds the joined paths the walk produces.
   */
  method ListFiles(walked: seq<string>) returns (files: seq<string>)
    ensures |files| == |walked|
    ensures forall i :: 0 <= i < |walked| ==> files[i] == Normalize(walked[i])
  {
    files := [];
    var i := 0;
    while i < |walked|
      invariant 0 <= i <= |walked|
      invariant |files| == i
      invariant forall k :: 0 <= k < i ==> files[k] == Normalize(walked[k])
    {
      files := files + [Normalize(walked[i])];
      i := i + 1;
    }
  }
}
