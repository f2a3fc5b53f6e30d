/** `get_arguments`: the scan of the command line into an option map and the verbose flag. */
module Arguments {

  /** `g_allowed_arguments` (line 6). */
  const Allowed: seq<string> := ["-h", "-k", "-e", "-m", "-d", "-o", "-v", "-a"]

  /** What `opts` maps a flag to: `True` for `-a`, the following element for the others. */
  datatype OptValue = Enabled | Value(arg: string)

  /** How the scan ends. */
  datatype Parsed =
    | Help                        // `-h`: help text, exit status 0
    | Unrecognised(arg: string)   // a dash-argument not allowed: help text, exit status 1
    | EmptyArgument               // `argv[0][0]` of an empty element raises IndexError
    | MissingValue(flag: string)  // `argv[1]` after a final value-taking flag raises IndexError
    | Options(opts: map<string, OptValue>, verbose: bool)

  /** The allowed flags that store the element after them: `-k`, `-e`, `-m`, `-d`, `-o`. */
  predicate TakesValue(a: string) {
    a in Allowed && a != "-h" && a != "-v" && a != "-a"
  }

  /** Element `i` ends the scan: help, an empty element, an unknown flag, or a final value flag. */
  predicate Halts(argv: seq<string>, i: int)
    requires 0 <= i < |argv|
  {
    var a := argv[i];
    || a == "-h"
    || (a != "-v" && a != "-a" && (a == "" || (a[0] == '-' && (a !in Allowed || i == |argv| - 1))))
  }

  /** The result when element `i` ends the scan. */
  function HaltResult(argv: seq<string>, i: int): Parsed
    requires 0 <= i < |argv| && Halts(argv, i)
  {
    var a := argv[i];
    if a == "-h" then Help
    else if a == "" then EmptyArgument
    else if a !in Allowed then Unrecognised(a)
    else MissingValue(a)
  }

  /** The last index of `x` in `s`, or -1 when `x` does not occur. */
  function LastIndex(s: seq<string>, x: string): (r: int)
    ensures -1 <= r < |s|
    ensures r == -1 <==> x !in s
    ensures r >= 0 ==> s[r] == x && forall k :: r < k < |s| ==> s[k] != x
  {
    if |s| == 0 then -1
    else if s[|s| - 1] == x then |s| - 1
    else LastIndex(s[..|s| - 1], x)
  }

  lemma LastIndexSnoc(s: seq<string>, x: string, y: string)
    ensures LastIndex(s + [x], y) == if y == x then |s| else LastIndex(s, y)
  {
    assert (s + [x])[..|s|] == s;
  }

  /**
   * The option map after the first `n` elements, when none of them ends the scan: `-a`
   * stores `Enabled`, a value-taking flag stores the element after it.
   */
  function Stored(argv: seq<string>, n: nat): map<string, OptValue>
    requires n <= |argv|
  {
    if n == 0 then map[]
    else
      var a := argv[n - 1];
      if a == "-a" then Stored(argv, n - 1)["-a" := Enabled]
      else if TakesValue(a) && n < |argv| then Stored(argv, n - 1)[a := Value(argv[n])]
      else Stored(argv, n - 1)
  }

  /** No element before `n` ends the scan. */
  predicate Continues(argv: seq<string>, n: nat)
    requires n <= |argv|
  {
    forall k :: 0 <= k < n ==> !Halts(argv, k)
  }

  /** The flags stored are exactly `-a` and the value-taking flags among the first `n` elements. */
  lemma {:induction false} StoredKeys(argv: seq<string>, n: nat)
    requires n <= |argv| && Continues(argv, n)
    ensures forall a :: a in Stored(argv, n) <==> a in argv[..n] && (a == "-a" || TakesValue(a))
  {
    if n > 0 {
      StoredKeys(argv, n - 1);
      assert argv[..n] == argv[..n - 1] + [argv[n - 1]];
      assert !Halts(argv, n - 1);
    }
  }

  /** `-a` is stored as `Enabled`. */
  lemma {:induction false} StoredEnabled(argv: seq<string>, n: nat)
    requires n <= |argv|
    ensures "-a" in Stored(argv, n) ==> Stored(argv, n)["-a"] == Enabled
  {
    if n > 0 {
      StoredEnabled(argv, n - 1);
    }
  }

  /** A value-taking flag is stored with the element after its last occurrence: a later repetition wins. */
  lemma {:induction false} StoredValue(argv: seq<string>, n: nat, f: string)
    requires n <= |argv| && Continues(argv, n)
    requires f in Stored(argv, n) && TakesValue(f)
    ensures LastIndex(argv[..n], f) + 1 < |argv|
    ensures Stored(argv, n)[f] == Value(argv[LastIndex(argv[..n], f) + 1])
  {
    var a := argv[n - 1];
    assert argv[..n] == argv[..n - 1] + [a];
    LastIndexSnoc(argv[..n - 1], a, f);
    if a != f {
      StoredValue(argv, n - 1, f);
    } else {
      assert !Halts(argv, n - 1);
    }
  }

  /** `-v` is never stored: it only turns verbose on. */
  lemma VerboseNotStored(argv: seq<string>, n: nat)
    requires n <= |argv| && Continues(argv, n)
    ensures "-v" !in Stored(argv, n)
  {
    StoredKeys(argv, n);
  }

  /**
   * The scan of lines 127-151. Every element is examined in turn, the program name
   * included, and the element after a value-taking flag is examined again itself.
   * The scan stops at the first element that ends it; otherwise `-v` turns verbose on,
   * `-a` maps to `Enabled`, each value-taking flag maps to the element after its last
   * occurrence, and every other element is ignored.
   */
  method GetArguments(argv: seq<string>) returns (r: Parsed)
    requires |argv| > 0
    ensures r.Options? <==> Continues(argv, |argv|)
    ensures !r.Options? ==>
      exists k :: 0 <= k < |argv| && Halts(argv, k) && Continues(argv, k) && r == HaltResult(argv, k)
    ensures r.Options? ==> r.verbose == ("-v" in argv) && r.opts == Stored(argv, |argv|)
  {
    var opts: map<string, OptValue> := map[];
    var verbose := false;
    var i := 0;
    while i < |argv|
      invariant 0 <= i <= |argv|
      invariant Continues(argv, i)
      invariant verbose == ("-v" in argv[..i])
      invariant opts == Stored(argv, i)
    {
      var a := argv[i];
      if a == "-h" {
        assert Halts(argv, i);
        return Help;
      } else if a == "-v" {
        verbose := true;
      } else if a == "-a" {
        opts := opts["-a" := Enabled];
      } else if a == "" {
        assert Halts(argv, i);
        return EmptyArgument;
      } else if a[0] == '-' {
        if a !in Allowed {
          assert Halts(argv, i);
          return Unrecognised(a);
        }
        if i + 1 == |argv| {
          assert Halts(argv, i);
          return MissingValue(a);
        }
        opts := opts[a := Value(argv[i + 1])];
      }
      assert argv[..i + 1] == argv[..i] + [a];
      i := i + 1;
    }
    assert argv[..i] == argv;
    return Options(opts, verbose);
  }

  /**
   * What a completed scan stores: `-a` as `Enabled`, each value-taking flag present with
   * the element after its last occurrence, nothing else; `-v` sets verbose only.
   */
  lemma OptionsMeaning(argv: seq<string>)
    requires Continues(argv, |argv|)
    ensures forall a :: a in Stored(argv, |argv|) <==> a in argv && (a == "-a" || TakesValue(a))
    ensures "-a" in Stored(argv, |argv|) ==> Stored(argv, |argv|)["-a"] == Enabled
    ensures forall a :: a in Stored(argv, |argv|) && TakesValue(a) ==>
      LastIndex(argv, a) + 1 < |argv| && Stored(argv, |argv|)[a] == Value(argv[LastIndex(argv, a) + 1])
    ensures "-v" !in Stored(argv, |argv|)
  {
    assert argv[..|argv|] == argv;
    StoredKeys(argv, |argv|);
    StoredEnabled(argv, |argv|);
    forall f | f in Stored(argv, |argv|) && TakesValue(f)
      ensures LastIndex(argv, f) + 1 < |argv| && Stored(argv, |argv|)[f] == Value(argv[LastIndex(argv, f) + 1])
    {
      StoredValue(argv, |argv|, f);
    }
    VerboseNotStored(argv, |argv|);
  }
}
